/** Retention planning for one repository: which versions stay, which go, and in
    what order (internal/application/registry_retention.go). */
module Planner {
  import opened Basics
  import opened Selection
  import opened ManifestGraph
  import opened VersionLists

  datatype RetentionPlan = RetentionPlan(
    kept: seq<RegistryVersion>,
    purged: seq<RegistryVersion>,
    deleteOrder: seq<RegistryVersion>,
    purgedVersions: nat)

  /** One planning request. */
  datatype Request = Request(versions: seq<RegistryVersion>, policy: Policy, references: References) {

    /** An untagged child manifest: its lifecycle belongs to the index above it. */
    ghost predicate UntaggedChild(version: RegistryVersion) {
      version.digest in Children(references) && version.tags == []
    }

    ghost function Excluded(): set<Digest> {
      set v | v in versions && UntaggedChild(v) :: v.digest
    }

    ghost function Chosen(): set<Digest> {
      policy.Selected(versions, Excluded())
    }

    ghost function Retained(): set<Digest> {
      Closure(references, Chosen())
    }

    /** Every child of a listed version was inspected as well. */
    ghost predicate Complete() {
      forall v, child | v in versions && child in Refs(references, v.digest) :: child in references
    }

    /** A listed version refers to the child. */
    ghost predicate IsParent(parent: Digest, child: Digest) {
      parent in Digests(versions) && child in Refs(references, parent)
    }

    /** Each digest of the chain is referenced by the next. */
    ghost predicate Chain(chain: seq<Digest>) {
      forall i | 0 <= i < |chain| - 1 :: IsParent(chain[i + 1], chain[i])
    }

    ghost predicate Cycle(chain: seq<Digest>) {
      && Chain(chain) && |chain| > 1 && chain[0] == chain[|chain| - 1]
      && forall d | d in chain :: d !in Retained()
    }

    /** The versions that are not retained refer to each other in a circle. */
    ghost predicate Cyclic() {
      exists chain :: Cycle(chain)
    }

    /** Parents come before their children, and nothing is listed twice. */
    ghost predicate ParentsFirst(order: seq<RegistryVersion>) {
      && Distinct(order)
      && forall i, parent | 0 <= i < |order| && IsParent(parent, order[i].digest) :: parent in Digests(order[..i])
    }

    /** What a plan for this request is. */
    ghost predicate IsPlan(plan: RetentionPlan) {
      && plan.kept == Restrict(versions, Retained())
      && plan.purged == Drop(versions, Retained())
      && ParentsFirst(plan.deleteOrder)
      && (forall v | v in plan.deleteOrder :: v in versions)
      && Digests(plan.deleteOrder) == Digests(plan.purged)
      && plan.purgedVersions == UserFacing(plan.purged)
    }

    /** Versions an operator sees: all but the untagged children. */
    ghost function UserFacing(versions: seq<RegistryVersion>): nat {
      if versions == [] then 0 else
        var last := |versions| - 1;
        UserFacing(versions[..last]) + if UntaggedChild(versions[last]) then 0 else 1
    }
  }

  /** The variables shared by the recursive walk that retains the children of
      every kept digest. */
  class RetainWalk {
    const references: References
    ghost const chosen: set<Digest>
    ghost const retained: set<Digest>
    var visited: set<Digest>
    var keepSet: set<Digest>

    /** Everything visited is kept, and nothing beyond the closure is visited. */
    ghost predicate Valid()
      reads this
    {
      && Closed(references, retained)
      && keepSet == chosen + visited <= retained
    }

    constructor (references: References, keepSet: set<Digest>)
      ensures Valid() && this.references == references && this.keepSet == chosen == keepSet && visited == {}
      ensures retained == Closure(references, keepSet)
    {
      this.references := references;
      this.keepSet := keepSet;
      this.chosen := keepSet;
      this.retained := Closure(references, keepSet);
      this.visited := {};
      ClosureIsClosed(references, keepSet);
    }

    method RetainChildren(digest: Digest)
      requires Valid() && digest in retained
      modifies this
      ensures Valid() && old(visited) + {digest} <= visited
      ensures forall d, child | d in visited - old(visited) && child in Refs(references, d) :: child in visited
      decreases retained - visited
    {
      if digest in visited {
        return;
      }
      visited := visited + {digest};
      keepSet := keepSet + {digest};
      var children := Refs(references, digest);
      for i := 0 to |children|
        invariant Valid() && old(visited) + {digest} <= visited
        invariant forall k | 0 <= k < i :: children[k] in visited
        invariant forall d, child | d in visited - old(visited) - {digest} && child in Refs(references, d) ::
                    child in visited
      {
        RetainChildren(children[i]);
      }
    }

    /** Ranges over the kept digests while the walk adds to them: an entry added
        during the iteration may or may not be produced by it, in any order. */
    method RetainAll()
      requires Valid() && visited == {} && keepSet == chosen && retained == Closure(references, chosen)
      modifies this
      ensures keepSet == retained
    {
      var pending := keepSet;
      while pending != {}
        invariant Valid() && pending <= keepSet && Closed(references, visited) && chosen <= visited + pending
        decreases retained - keepSet, pending
      {
        var digest :| digest in pending;
        var before := keepSet;
        RetainChildren(digest);
        var produced :| produced <= keepSet - before;
        assert keepSet == before ==> produced == {};
        pending := pending - {digest} + produced;
      }
      ClosureBelow(references, chosen, visited);
    }
  }

  /** Parents of each child, as the planner collects them. */
  type Parents = map<Digest, seq<Digest>>

  ghost predicate IsAbove(parents: Parents, parent: Digest, child: Digest) {
    child in parents && parent in parents[child]
  }

  ghost predicate Ascends(parents: Parents, chain: seq<Digest>) {
    forall i | 0 <= i < |chain| - 1 :: IsAbove(parents, chain[i + 1], chain[i])
  }

  ghost predicate Circle(parents: Parents, chain: seq<Digest>) {
    Ascends(parents, chain) && |chain| > 1 && chain[0] == chain[|chain| - 1]
  }

  ghost predicate Topological(parents: Parents, order: seq<RegistryVersion>) {
    && Distinct(order)
    && forall i, parent | 0 <= i < |order| && IsAbove(parents, parent, order[i].digest) ::
         parent in Digests(order[..i])
  }

  lemma AppendKeepsTopological(parents: Parents, order: seq<RegistryVersion>, version: RegistryVersion)
    requires Topological(parents, order) && version.digest !in Digests(order)
    requires forall parent | IsAbove(parents, parent, version.digest) :: parent in Digests(order)
    ensures Topological(parents, order + [version])
    ensures Digests(order + [version]) == Digests(order) + {version.digest}
  {
    var longer := order + [version];
    forall i, parent | 0 <= i < |longer| && IsAbove(parents, parent, longer[i].digest)
      ensures parent in Digests(longer[..i])
    {
      assert longer[..i] == order[..i];
      assert order[..|order|] == order;
    }
    forall i, j | 0 <= i < j < |longer| ensures longer[i].digest != longer[j].digest {
      assert longer[i] in order;
    }
    forall d | d in Digests(order) + {version.digest} ensures d in Digests(longer) {
      if d != version.digest {
        var v :| v in order && v.digest == d;
        assert v in longer;
      } else {
        assert version in longer;
      }
    }
  }

  lemma AscendsFurther(parents: Parents, path: seq<Digest>, digest: Digest, parent: Digest)
    requires path != [] && path[|path| - 1] == digest && Ascends(parents, path) && IsAbove(parents, parent, digest)
    ensures Ascends(parents, path + [parent])
  {
  }

  /** A path that comes back to a digest on it closes a circle. */
  lemma ClosesCircle(parents: Parents, path: seq<Digest>, digest: Digest, visiting: set<Digest>)
      returns (circle: seq<Digest>)
    requires Ascends(parents, path + [digest]) && (set d | d in path) == visiting && digest in visiting
    ensures Circle(parents, circle) && forall d | d in circle :: d in visiting
  {
    var start :| 0 <= start < |path| && path[start] == digest;
    circle := (path + [digest])[start..];
  }

  /** The variables shared by the recursive walk that lists parents before their
      children and meets a digest twice on its path only on a circle. */
  class OrderWalk {
    const keepSet: set<Digest>
    const parents: Parents
    const byDigest: map<Digest, RegistryVersion>
    var ordered: set<Digest>
    var visiting: set<Digest>
    var deleteOrder: seq<RegistryVersion>

    /** Listed versions are filed under their own digest, the walk upwards stays
        among them, and it stays outside the kept ones. */
    ghost predicate Wired()
    {
      && (forall d | d in byDigest :: byDigest[d].digest == d)
      && (forall child, parent | IsAbove(parents, parent, child) :: parent in byDigest)
      && (forall child, parent | IsAbove(parents, parent, child) && child !in keepSet :: parent !in keepSet)
    }

    ghost predicate Valid()
      reads this
    {
      && ordered == Digests(deleteOrder)
      && ordered !! keepSet
      && ordered !! visiting
      && Topological(parents, deleteOrder)
      && (forall v | v in deleteOrder :: v.digest in byDigest && v == byDigest[v.digest])
    }

    /** The digests being visited are those on the path, listed ones and none kept. */
    ghost predicate OnStack(path: seq<Digest>)
      reads this
    {
      (set d | d in path) == visiting && visiting <= byDigest.Keys && visiting !! keepSet
    }

    constructor (keepSet: set<Digest>, parents: Parents, byDigest: map<Digest, RegistryVersion>)
      ensures this.keepSet == keepSet && this.parents == parents && this.byDigest == byDigest
      ensures Valid() && ordered == visiting == {} && deleteOrder == []
    {
      this.keepSet := keepSet;
      this.parents := parents;
      this.byDigest := byDigest;
      ordered, visiting, deleteOrder := {}, {}, [];
    }

    /** path is the walk's own call stack: from the digest first asked for up to
        the one whose parents are being ordered. A refusal comes with a circle. */
    method OrderDeletion(digest: Digest, ghost path: seq<Digest>) returns (ok: bool, ghost circle: seq<Digest>)
      requires Wired() && Valid() && digest in byDigest
      requires Ascends(parents, path + [digest])
      requires OnStack(path) && (path != [] ==> digest !in keepSet)
      modifies this
      ensures ok ==> Valid() && visiting == old(visiting) && old(ordered) <= ordered
      ensures ok ==> digest in keepSet + ordered
      ensures !ok ==> Circle(parents, circle) && forall d | d in circle :: d !in keepSet
      decreases byDigest.Keys - visiting, 1
    {
      circle := [];
      if digest in keepSet || digest in ordered {
        return true, circle;
      }
      if digest in visiting {
        circle := ClosesCircle(parents, path, digest, visiting);
        return false, circle;
      }
      visiting := visiting + {digest};
      ok, circle := OrderParents(digest, path + [digest]);
      if ok {
        AppendVersion(digest);
      }
    }

    /** The parents of a digest that is being visited. */
    method OrderParents(digest: Digest, ghost path: seq<Digest>) returns (ok: bool, ghost circle: seq<Digest>)
      requires Wired() && Valid() && digest in visiting && digest !in keepSet
      requires path != [] && path[|path| - 1] == digest && Ascends(parents, path) && OnStack(path)
      modifies this
      ensures ok ==> Valid() && visiting == old(visiting) && old(ordered) <= ordered
      ensures ok ==> forall parent | IsAbove(parents, parent, digest) :: parent in ordered
      ensures !ok ==> Circle(parents, circle) && forall d | d in circle :: d !in keepSet
      decreases byDigest.Keys - visiting, 2
    {
      var above := if digest in parents then parents[digest] else [];
      for i := 0 to |above|
        invariant Valid() && visiting == old(visiting) && old(ordered) <= ordered && OnStack(path)
        invariant forall k | 0 <= k < i :: above[k] in ordered
      {
        assert IsAbove(parents, above[i], digest);
        AscendsFurther(parents, path, digest, above[i]);
        ok, circle := OrderDeletion(above[i], path);
        if !ok {
          return;
        }
      }
      return true, [];
    }

    /** The end of a visit, behind all parents. */
    method AppendVersion(digest: Digest)
      requires Wired() && Valid() && digest in byDigest && digest in visiting && digest !in keepSet
      requires forall parent | IsAbove(parents, parent, digest) :: parent in ordered
      modifies this
      ensures Valid() && visiting == old(visiting) - {digest} && ordered == old(ordered) + {digest}
    {
      visiting := visiting - {digest};
      ordered := ordered + {digest};
      if digest in byDigest {
        AppendKeepsTopological(parents, deleteOrder, byDigest[digest]);
        deleteOrder := deleteOrder + [byDigest[digest]];
      }
    }
  }

  method CollectChildren(references: References) returns (children: set<Digest>)
    ensures children == Children(references)
  {
    children := {};
    var pending := references.Keys;
    while pending != {}
      invariant pending <= references.Keys
      invariant children == ChildrenOf(references, references.Keys - pending)
    {
      var parent :| parent in pending;
      var refs := references[parent];
      for i := 0 to |refs|
        invariant children == ChildrenOf(references, references.Keys - pending)
                              + set k | 0 <= k < i :: refs[k]
      {
        children := children + {refs[i]};
      }
      ghost var seen := references.Keys - pending;
      forall child | child in ChildrenOf(references, seen + {parent})
        ensures child in ChildrenOf(references, seen) + set k | 0 <= k < |refs| :: refs[k]
      {
        var p :| p in seen + {parent} && p in references && child in references[p];
        if p == parent {
          var k :| 0 <= k < |refs| && refs[k] == child;
        }
      }
      forall k | 0 <= k < |refs| ensures refs[k] in ChildrenOf(references, seen + {parent}) {
        assert parent in references && refs[k] in references[parent];
      }
      pending := pending - {parent};
      assert references.Keys - pending == seen + {parent};
    }
    assert references.Keys - {} == references.Keys;
  }

  method GraphIsComplete(request: Request) returns (complete: bool)
    ensures complete == request.Complete()
  {
    for i := 0 to |request.versions|
      invariant forall k, child | 0 <= k < i && child in Refs(request.references, request.versions[k].digest) ::
                  child in request.references
    {
      var refs := Refs(request.references, request.versions[i].digest);
      for j := 0 to |refs|
        invariant forall k | 0 <= k < j :: refs[k] in request.references
      {
        if refs[j] !in request.references {
          assert request.versions[i] in request.versions && refs[j] in refs;
          return false;
        }
      }
    }
    return true;
  }

  method CollectExcluded(request: Request, children: set<Digest>) returns (excluded: set<Digest>)
    requires children == Children(request.references)
    ensures excluded == request.Excluded()
  {
    excluded := {};
    for i := 0 to |request.versions|
      invariant excluded == set v | v in request.versions[..i] && request.UntaggedChild(v) :: v.digest
    {
      assert request.versions[..i + 1] == request.versions[..i] + [request.versions[i]];
      if request.versions[i].digest in children && request.versions[i].tags == [] {
        excluded := excluded + {request.versions[i].digest};
      }
    }
    assert request.versions[..|request.versions|] == request.versions;
  }

  method CollectParents(request: Request) returns (parents: Parents)
    ensures forall child, parent :: IsAbove(parents, parent, child) <==> request.IsParent(parent, child)
  {
    parents := map[];
    for i := 0 to |request.versions|
      invariant forall child, parent :: IsAbove(parents, parent, child) <==>
                  parent in Digests(request.versions[..i]) && child in Refs(request.references, parent)
    {
      var digest := request.versions[i].digest;
      var refs := Refs(request.references, digest);
      for j := 0 to |refs|
        invariant forall child, parent :: IsAbove(parents, parent, child) <==>
                    || (parent in Digests(request.versions[..i]) && child in Refs(request.references, parent))
                    || (parent == digest && child in refs[..j])
      {
        ghost var earlier := parents;
        var before := if refs[j] in parents then parents[refs[j]] else [];
        parents := parents[refs[j] := before + [digest]];
        assert refs[..j + 1] == refs[..j] + [refs[j]];
        forall child, parent
          ensures IsAbove(parents, parent, child) <==>
                  IsAbove(earlier, parent, child) || (parent == digest && child == refs[j])
        {
        }
      }
      assert refs[..|refs|] == refs;
      assert request.versions[..i + 1] == request.versions[..i] + [request.versions[i]];
    }
    assert request.versions[..|request.versions|] == request.versions;
  }

  method IndexByDigest(versions: seq<RegistryVersion>) returns (byDigest: map<Digest, RegistryVersion>)
    ensures byDigest.Keys == Digests(versions)
    ensures forall d | d in byDigest :: byDigest[d] in versions && byDigest[d].digest == d
  {
    byDigest := map[];
    for i := 0 to |versions|
      invariant byDigest.Keys == Digests(versions[..i])
      invariant forall d | d in byDigest :: byDigest[d] in versions && byDigest[d].digest == d
    {
      byDigest := byDigest[versions[i].digest := versions[i]];
      assert versions[..i + 1] == versions[..i] + [versions[i]];
    }
    assert versions[..|versions|] == versions;
  }

  /** Orders everything that is not kept, or refuses with a circle of it. */
  method OrderAll(versions: seq<RegistryVersion>, walk: OrderWalk) returns (ok: bool, ghost circle: seq<Digest>)
    requires walk.Wired() && walk.Valid() && walk.visiting == walk.ordered == {} && walk.deleteOrder == []
    requires walk.byDigest.Keys == Digests(versions)
    modifies walk
    ensures ok ==> walk.Valid() && walk.ordered == Digests(versions) - walk.keepSet
    ensures !ok ==> Circle(walk.parents, circle) && forall d | d in circle :: d !in walk.keepSet
  {
    circle := [];
    for i := 0 to |versions|
      invariant walk.Valid() && walk.visiting == {}
      invariant forall k | 0 <= k < i :: versions[k].digest in walk.keepSet + walk.ordered
    {
      assert versions[i] in versions;
      ok, circle := walk.OrderDeletion(versions[i].digest, []);
      if !ok {
        return;
      }
    }
    return true, [];
  }

  lemma UserFacingGrows(request: Request, purged: seq<RegistryVersion>, version: RegistryVersion)
    ensures request.UserFacing(purged + [version]) ==
            request.UserFacing(purged) + if request.UntaggedChild(version) then 0 else 1
  {
    assert (purged + [version])[..|purged|] == purged;
  }

  method Assemble(request: Request, children: set<Digest>, keepSet: set<Digest>, deleteOrder: seq<RegistryVersion>)
      returns (plan: RetentionPlan)
    requires children == Children(request.references)
    ensures plan.kept == Restrict(request.versions, keepSet) && plan.purged == Drop(request.versions, keepSet)
    ensures plan.deleteOrder == deleteOrder && plan.purgedVersions == request.UserFacing(plan.purged)
  {
    plan := RetentionPlan([], [], deleteOrder, 0);
    for i := 0 to |request.versions|
      invariant plan.kept == Restrict(request.versions[..i], keepSet)
      invariant plan.purged == Drop(request.versions[..i], keepSet)
      invariant plan.deleteOrder == deleteOrder && plan.purgedVersions == request.UserFacing(plan.purged)
    {
      var version := request.versions[i];
      SplitOfNext(request.versions, keepSet, i);
      if version.digest in keepSet {
        plan := plan.(kept := plan.kept + [version]);
        continue;
      }
      UserFacingGrows(request, plan.purged, version);
      plan := plan.(purged := plan.purged + [version]);
      if version.digest in children && version.tags == [] {
        continue;
      }
      plan := plan.(purgedVersions := plan.purgedVersions + 1);
    }
    assert request.versions[..|request.versions|] == request.versions;
  }

  /** Exactly three things refuse a plan, in this order: an incomplete graph, an
      illegal keep count, and a reference circle among what is not retained. */
  method PlanRegistryRetention(request: Request) returns (r: Result<RetentionPlan, RetentionError>)
    ensures r == Err(GraphIncomplete) <==> !request.Complete()
    ensures r == Err(KeepInvalid) <==> request.Complete() && !request.policy.Legal()
    ensures r == Err(GraphCyclic) <==> request.Complete() && request.policy.Legal() && request.Cyclic()
    ensures r.Ok? ==> request.IsPlan(r.value)
  {
    var children := CollectChildren(request.references);
    var complete := GraphIsComplete(request);
    if !complete {
      return Err(GraphIncomplete);
    }
    var excluded := CollectExcluded(request, children);
    var selected := SelectRegistryVersions(request.versions, request.policy, excluded);
    if selected.Err? {
      return Err(selected.error);
    }
    var retain := new RetainWalk(request.references, selected.value);
    retain.RetainAll();
    var keepSet := retain.keepSet;
    var parents := CollectParents(request);
    var byDigest := IndexByDigest(request.versions);
    var order := new OrderWalk(keepSet, parents, byDigest);
    WalkIsWired(request, order);
    var ok, circle := OrderAll(request.versions, order);
    if !ok {
      CircleIsCycle(request, parents, circle);
      return Err(GraphCyclic);
    }
    var plan := Assemble(request, children, keepSet, order.deleteOrder);
    OrderedIsPlanned(request, parents, plan);
    TopologicalHasNoCycle(request, plan);
    return Ok(plan);
  }

  lemma WalkIsWired(request: Request, walk: OrderWalk)
    requires walk.keepSet == request.Retained() && walk.byDigest.Keys == Digests(request.versions)
    requires forall d | d in walk.byDigest :: walk.byDigest[d].digest == d
    requires forall child, parent :: IsAbove(walk.parents, parent, child) <==> request.IsParent(parent, child)
    ensures walk.Wired()
  {
    ClosureIsClosed(request.references, request.Chosen());
  }

  lemma CircleIsCycle(request: Request, parents: Parents, circle: seq<Digest>)
    requires forall child, parent :: IsAbove(parents, parent, child) <==> request.IsParent(parent, child)
    requires Circle(parents, circle) && forall d | d in circle :: d !in request.Retained()
    ensures request.Cyclic()
  {
    assert request.Cycle(circle);
  }

  lemma OrderedIsPlanned(request: Request, parents: Parents, plan: RetentionPlan)
    requires forall child, parent :: IsAbove(parents, parent, child) <==> request.IsParent(parent, child)
    requires Topological(parents, plan.deleteOrder)
    requires forall v | v in plan.deleteOrder :: v in request.versions
    requires Digests(plan.deleteOrder) == Digests(request.versions) - request.Retained()
    requires plan.kept == Restrict(request.versions, request.Retained())
    requires plan.purged == Drop(request.versions, request.Retained())
    requires plan.purgedVersions == request.UserFacing(plan.purged)
    ensures request.IsPlan(plan)
  {
    RestrictDigests(request.versions, request.Retained());
  }

  /** Following a chain upwards moves towards the front of the delete order. */
  lemma {:induction false} ChainDescends(request: Request, order: seq<RegistryVersion>, chain: seq<Digest>, at: nat)
      returns (end: nat)
    requires request.ParentsFirst(order) && request.Chain(chain) && chain != []
    requires at < |order| && order[at].digest == chain[0]
    ensures end < |order| && order[end].digest == chain[|chain| - 1] && end + |chain| - 1 <= at
  {
    if |chain| == 1 {
      end := at;
    } else {
      assert request.IsParent(chain[1], chain[0]);
      var v :| v in order[..at] && v.digest == chain[1];
      var above :| 0 <= above < at && order[above] == v;
      assert forall i | 0 <= i < |chain[1..]| - 1 :: request.IsParent(chain[1..][i + 1], chain[1..][i]) by {
        forall i | 0 <= i < |chain[1..]| - 1 ensures request.IsParent(chain[1..][i + 1], chain[1..][i]) {
          assert request.IsParent(chain[i + 2], chain[i + 1]);
        }
      }
      end := ChainDescends(request, order, chain[1..], above);
    }
  }

  lemma TopologicalHasNoCycle(request: Request, plan: RetentionPlan)
    requires request.IsPlan(plan)
    ensures !request.Cyclic()
  {
    forall chain ensures !request.Cycle(chain) {
      if request.Cycle(chain) {
        RestrictDigests(request.versions, request.Retained());
        var last := |chain| - 1;
        assert request.IsParent(chain[last], chain[last - 1]);
        assert chain[0] in Digests(request.versions);
        assert chain[0] in Digests(plan.purged);
        var v :| v in plan.deleteOrder && v.digest == chain[0];
        var at :| 0 <= at < |plan.deleteOrder| && plan.deleteOrder[at] == v;
        var end := ChainDescends(request, plan.deleteOrder, chain, at);
        assert false;
      }
    }
  }

  // ----- What a plan keeps and counts, in terms of the listing

  /** Without tags, and a manifest that was inspected refers to it. */
  ghost predicate IsOwned(references: References, version: RegistryVersion) {
    version.tags == [] && exists parent :: parent in references && version.digest in references[parent]
  }

  ghost function Owned(request: Request): set<Digest> {
    set v | v in request.versions && IsOwned(request.references, v) :: v.digest
  }

  ghost function NotOwned(references: References, versions: seq<RegistryVersion>, n: nat): set<nat>
    requires n <= |versions|
  {
    set i: nat | i < n && !IsOwned(references, versions[i])
  }

  lemma OwnedIffUntaggedChild(request: Request, version: RegistryVersion)
    ensures IsOwned(request.references, version) <==> request.UntaggedChild(version)
  {
  }

  /** A plan keeps exactly the versions that references lead to from those the rule
      keeps when nothing owned by an index counts. */
  lemma PlanKeepsWhatIsReached(request: Request, plan: RetentionPlan, v: RegistryVersion)
    requires request.IsPlan(plan) && v in request.versions
    ensures v in plan.kept <==>
            exists i: nat, path :: i < |request.versions| && Keeps(request.policy, request.versions, Owned(request), i)
                                   && IsPath(request.references, path, request.versions[i].digest, v.digest)
    ensures v in plan.purged <==> v !in plan.kept
  {
    RestrictDigests(request.versions, request.Retained());
    forall w | w in request.versions ensures IsOwned(request.references, w) <==> request.UntaggedChild(w) {
      OwnedIffUntaggedChild(request, w);
    }
    assert Owned(request) == request.Excluded();
    SelectedAreKept(request.policy, request.versions, Owned(request));
    ReachedByPath(request.references, request.Chosen(), v.digest);
  }

  /** It counts the purged versions that are not owned by an index. */
  lemma PlanCountsPurged(request: Request, plan: RetentionPlan)
    requires request.IsPlan(plan)
    ensures plan.purgedVersions == |NotOwned(request.references, plan.purged, |plan.purged|)|
  {
    CountNotOwned(request, plan.purged, |plan.purged|);
    assert plan.purged[..|plan.purged|] == plan.purged;
  }

  lemma {:induction false} CountNotOwned(request: Request, purged: seq<RegistryVersion>, n: nat)
    requires n <= |purged|
    ensures request.UserFacing(purged[..n]) == |NotOwned(request.references, purged, n)|
  {
    if n > 0 {
      CountNotOwned(request, purged, n - 1);
      assert purged[..n] == purged[..n - 1] + [purged[n - 1]];
      UserFacingGrows(request, purged[..n - 1], purged[n - 1]);
      OwnedIffUntaggedChild(request, purged[n - 1]);
      NotOwnedGrow(request.references, purged, n - 1);
      assert n - 1 !in NotOwned(request.references, purged, n - 1);
    }
  }

  lemma NotOwnedGrow(references: References, versions: seq<RegistryVersion>, n: nat)
    requires n < |versions|
    ensures NotOwned(references, versions, n + 1) ==
            NotOwned(references, versions, n) + if IsOwned(references, versions[n]) then {} else {n}
  {
  }
}
