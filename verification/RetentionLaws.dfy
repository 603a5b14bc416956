/** What retention planning guarantees across runs: planning again over what a
    plan keeps purges nothing, and planning again after an interrupted deletion
    never purges what the interrupted plan kept. */
module RetentionLaws {
  import opened Selection
  import opened ManifestGraph
  import opened VersionLists
  import opened Planner

  /** How far a deletion got: some versions are gone, and of some versions only
      the given tags are left. */
  datatype Interruption = Interruption(gone: set<Digest>, left: map<Digest, seq<string>>) {

    function Survivor(version: RegistryVersion): RegistryVersion {
      if version.digest in left then version.(tags := left[version.digest]) else version
    }

    function Survivors(versions: seq<RegistryVersion>): seq<RegistryVersion> {
      if versions == [] then [] else
        var last := |versions| - 1;
        Survivors(versions[..last]) + if versions[last].digest in gone then [] else [Survivor(versions[last])]
    }

    /** The request a later run plans: survivors only, references read again. */
    ghost function Next(request: Request): Request {
      Request(Survivors(request.versions), request.policy,
              map d | d in request.references && d !in gone :: request.references[d])
    }

    /** Only purged versions are touched, and each only after all its parents
        are gone; tags are only ever removed. */
    ghost predicate Of(request: Request) {
      && gone + left.Keys <= Digests(request.versions) - request.Retained()
      && gone !! left.Keys
      && (forall parent, child | request.IsParent(parent, child) && child in gone + left.Keys :: parent in gone)
      && (forall v, tag | v in request.versions && v.digest in left && tag in left[v.digest] :: tag in v.tags)
    }

    /** A surviving untagged child whose parents are all gone. */
    ghost predicate Orphan(request: Request, version: RegistryVersion) {
      && version.digest !in gone
      && request.UntaggedChild(version)
      && forall parent | request.IsParent(parent, version.digest) :: parent in gone
    }

    /** The positions of orphans that now compete for the quota. */
    ghost function Competing(request: Request): set<nat> {
      set i: nat | i < |request.versions| && Orphan(request, request.versions[i])
                   && request.policy.TakesSlot(request.versions[i], {})
    }

    /** How many of them are among the first n versions. */
    ghost function OrphanSlots(request: Request, n: nat): nat {
      |Below(Competing(request), n)|
    }

    /** Behind the first n versions the competitors of the interrupted plan and the
        orphans listed among them leave a quota slot. */
    ghost predicate HasRoom(request: Request, n: nat)
      requires n <= |request.versions|
    {
      request.policy.Slots(request.versions[..n], request.Excluded()) + OrphanSlots(request, n) < request.policy.keep
    }

    /** Version i survives, nothing excludes it any more, and the quota has room for it
        if it needs any. */
    ghost predicate Rechooses(request: Request, i: nat)
      requires i < |request.versions|
    {
      var v := request.versions[i];
      && v.digest !in gone
      && (|| request.policy.keep == 0
          || ((!request.UntaggedChild(v) || Orphan(request, v))
              && (request.policy.TakesSlot(v, {}) ==> HasRoom(request, i))))
    }

    ghost function Rechosen(request: Request): set<Digest> {
      set i: nat | i < |request.versions| && Rechooses(request, i) :: request.versions[i].digest
    }
  }

  /** Version i won a quota slot of the interrupted plan. */
  ghost predicate WinsSlot(request: Request, i: nat)
    requires i < |request.versions|
  {
    && request.policy.TakesSlot(request.versions[i], request.Excluded())
    && request.policy.Slots(request.versions[..i], request.Excluded()) < request.policy.keep
  }

  ghost function Below(positions: set<nat>, n: nat): set<nat> {
    set i | i in positions && i < n
  }

  /** Behind every version that won a quota slot the orphans listed before it
      still leave it one. */
  ghost predicate LeavesRoom(request: Request, x: Interruption) {
    forall i | 0 <= i < |request.versions| && WinsSlot(request, i) :: x.HasRoom(request, i)
  }

  /** Every listed version was inspected, nothing else was, and no digest is
      listed twice: what a maintenance run hands to the planner. */
  ghost predicate Inspected(request: Request) {
    && Distinct(request.versions)
    && request.references.Keys == Digests(request.versions)
    && request.Complete()
  }

  /** Each child is listed after its parents: an index is pushed after the
      manifests it refers to, and the listing is newest first. */
  ghost predicate ParentsListedFirst(request: Request) {
    forall i, j | 0 <= i < |request.versions| && 0 <= j < |request.versions|
                  && request.IsParent(request.versions[i].digest, request.versions[j].digest) :: i < j
  }

  // ----- Survivors of a listing

  lemma {:induction false} SurvivorsAt(x: Interruption, versions: seq<RegistryVersion>)
    ensures forall v :: v in x.Survivors(versions) <==>
              exists w :: w in versions && w.digest !in x.gone && v == x.Survivor(w)
    ensures Digests(x.Survivors(versions)) == Digests(versions) - x.gone
  {
    if versions != [] {
      var last := |versions| - 1;
      SurvivorsAt(x, versions[..last]);
      assert versions == versions[..last] + [versions[last]];
      forall v ensures v in x.Survivors(versions) <==>
                exists w :: w in versions && w.digest !in x.gone && v == x.Survivor(w)
      {
      }
      forall d | d in Digests(versions) - x.gone ensures d in Digests(x.Survivors(versions)) {
        var w :| w in versions && w.digest == d;
        assert x.Survivor(w) in x.Survivors(versions);
      }
    }
  }

  /** A surviving version keeps its place behind the survivors of its prefix. */
  lemma {:induction false} SurvivorPosition(x: Interruption, versions: seq<RegistryVersion>, i: nat)
      returns (at: nat)
    requires i < |versions| && versions[i].digest !in x.gone
    ensures at < |x.Survivors(versions)| && x.Survivors(versions)[at] == x.Survivor(versions[i])
    ensures x.Survivors(versions)[..at] == x.Survivors(versions[..i])
  {
    var last := |versions| - 1;
    if i == last {
      at := |x.Survivors(versions[..i])|;
    } else {
      at := SurvivorPosition(x, versions[..last], i);
      assert versions[..last][..i] == versions[..i];
    }
  }

  lemma {:induction false} SurvivorsDistinct(x: Interruption, versions: seq<RegistryVersion>)
    requires Distinct(versions)
    ensures Distinct(x.Survivors(versions))
  {
    if versions != [] {
      var last := |versions| - 1;
      SurvivorsDistinct(x, versions[..last]);
      SurvivorsAt(x, versions[..last]);
      forall v | v in x.Survivors(versions[..last]) ensures v.digest != versions[last].digest {
        var w :| w in versions[..last] && v == x.Survivor(w);
      }
    }
  }

  // ----- The graph and the quota after an interruption

  lemma ParentsAfter(request: Request, x: Interruption, parent: Digest, child: Digest)
    ensures x.Next(request).IsParent(parent, child) <==> request.IsParent(parent, child) && parent !in x.gone
  {
    SurvivorsAt(x, request.versions);
  }

  lemma ChildHasParent(request: Request, child: Digest)
    requires request.references.Keys == Digests(request.versions)
    ensures child in Children(request.references) <==> exists parent :: request.IsParent(parent, child)
  {
    if child in Children(request.references) {
      var parent :| parent in request.references && child in request.references[parent];
      assert request.IsParent(parent, child);
    }
    if parent :| request.IsParent(parent, child) {
      assert parent in request.references && child in request.references[parent];
    }
  }

  lemma NextIsInspected(request: Request, x: Interruption)
    requires Inspected(request) && x.Of(request)
    ensures Inspected(x.Next(request))
  {
    var next := x.Next(request);
    SurvivorsAt(x, request.versions);
    SurvivorsDistinct(x, request.versions);
    forall v, child | v in next.versions && child in Refs(next.references, v.digest)
      ensures child in next.references
    {
      var w :| w in request.versions && v == x.Survivor(w);
      assert request.IsParent(v.digest, child);
    }
  }

  /** A survivor is excluded afterwards exactly if it was and still has a parent. */
  lemma ExcludedAfter(request: Request, x: Interruption, v: RegistryVersion)
    requires Inspected(request) && x.Of(request) && v in request.versions && v.digest !in x.gone
    ensures v.digest in x.Next(request).Excluded() <==> v.digest in request.Excluded() && !x.Orphan(request, v)
  {
    var next := x.Next(request);
    NextIsInspected(request, x);
    SurvivorsAt(x, request.versions);
    ChildHasParent(request, v.digest);
    ChildHasParent(next, v.digest);
    assert x.Survivor(v) in next.versions;
    if v.digest in next.Excluded() {
      var w :| w in next.versions && next.UntaggedChild(w) && w.digest == v.digest;
      SameDigestSameVersion(next.versions, w, x.Survivor(v));
      var parent :| next.IsParent(parent, v.digest);
      ParentsAfter(request, x, parent, v.digest);
      assert request.UntaggedChild(v);
    }
    if v.digest in request.Excluded() && !x.Orphan(request, v) {
      var w :| w in request.versions && request.UntaggedChild(w) && w.digest == v.digest;
      SameDigestSameVersion(request.versions, w, v);
      var parent :| request.IsParent(parent, v.digest) && parent !in x.gone;
      ParentsAfter(request, x, parent, v.digest);
      assert next.UntaggedChild(x.Survivor(v));
    }
  }

  lemma ExcludedIffUntaggedChild(request: Request, v: RegistryVersion)
    requires Distinct(request.versions) && v in request.versions
    ensures v.digest in request.Excluded() <==> request.UntaggedChild(v)
  {
    if v.digest in request.Excluded() {
      var w :| w in request.versions && request.UntaggedChild(w) && w.digest == v.digest;
      SameDigestSameVersion(request.versions, v, w);
    }
  }

  /** A purged version lost the quota or was an untagged child. */
  lemma PurgedLostQuota(request: Request, i: nat)
    requires Inspected(request) && i < |request.versions|
    requires request.versions[i].digest !in request.Retained()
    ensures 0 != request.policy.keep
    ensures || request.UntaggedChild(request.versions[i])
            || (&& request.policy.TakesSlot(request.versions[i], request.Excluded())
                && request.policy.keep <= request.policy.Slots(request.versions[..i], request.Excluded()))
  {
    ClosureIsClosed(request.references, request.Chosen());
    ExcludedIffUntaggedChild(request, request.versions[i]);
    assert !request.policy.Selects(request.versions, request.Excluded(), i);
  }

  /** A survivor competes for the quota afterwards exactly if it did before or is
      an orphan with a known time and no protection. */
  lemma SurvivorSlot(request: Request, x: Interruption, i: nat)
    requires Inspected(request) && x.Of(request) && i < |request.versions|
    requires request.versions[i].digest !in x.gone
    ensures var v := request.versions[i];
            request.policy.TakesSlot(x.Survivor(v), x.Next(request).Excluded()) <==>
            || request.policy.TakesSlot(v, request.Excluded())
            || (x.Orphan(request, v) && request.policy.TakesSlot(v, {}))
  {
    var v := request.versions[i];
    ExcludedAfter(request, x, v);
    ExcludedIffUntaggedChild(request, v);
    if v.digest in x.left {
      PurgedLostQuota(request, i);
      assert forall tag | tag in x.Survivor(v).tags :: tag in v.tags;
    }
  }

  lemma SlotsSnoc(policy: Policy, versions: seq<RegistryVersion>, more: seq<RegistryVersion>, excluded: set<Digest>)
    requires |more| <= 1
    ensures policy.Slots(versions + more, excluded) ==
            policy.Slots(versions, excluded) + if more != [] && policy.TakesSlot(more[0], excluded) then 1 else 0
  {
    if more == [] {
      assert versions + more == versions;
    } else {
      assert (versions + more)[..|versions|] == versions;
    }
  }

  /** The marked survivors are the ones that compete afterwards and did not
      before; nobody that competed is gone. */
  ghost predicate CountsAs(policy: Policy, x: Interruption, v: RegistryVersion, excluded: set<Digest>,
                           excluded': set<Digest>, marked: bool)
  {
    var before := policy.TakesSlot(v, excluded);
    && !(marked && before)
    && (marked || before <==> v.digest !in x.gone && policy.TakesSlot(x.Survivor(v), excluded'))
  }

  lemma {:induction false} CountSlotsAfter(policy: Policy, x: Interruption, versions: seq<RegistryVersion>,
                                           excluded: set<Digest>, excluded': set<Digest>, marks: set<nat>)
    requires forall j: nat | j < |versions| :: CountsAs(policy, x, versions[j], excluded, excluded', j in marks)
    ensures policy.Slots(x.Survivors(versions), excluded') ==
            policy.Slots(versions, excluded) + |Below(marks, |versions|)|
  {
    if versions == [] {
      assert Below(marks, 0) == {};
    } else {
      var last := |versions| - 1;
      CountSlotsAfter(policy, x, versions[..last], excluded, excluded', marks);
      CountOneAfter(policy, x, versions, excluded, excluded', marks);
    }
  }

  lemma CountOneAfter(policy: Policy, x: Interruption, versions: seq<RegistryVersion>,
                      excluded: set<Digest>, excluded': set<Digest>, marks: set<nat>)
    requires versions != []
    requires CountsAs(policy, x, versions[|versions| - 1], excluded, excluded', |versions| - 1 in marks)
    ensures policy.Slots(x.Survivors(versions), excluded') - policy.Slots(versions, excluded)
              - |Below(marks, |versions|)| ==
            policy.Slots(x.Survivors(versions[..|versions| - 1]), excluded')
              - policy.Slots(versions[..|versions| - 1], excluded) - |Below(marks, |versions| - 1)|
  {
    var last := |versions| - 1;
    var survivors := if versions[last].digest in x.gone then [] else [x.Survivor(versions[last])];
    SlotsSnoc(policy, x.Survivors(versions[..last]), survivors, excluded');
    assert Below(marks, last + 1) == Below(marks, last) + if last in marks then {last} else {};
  }

  lemma SlotsAfter(request: Request, x: Interruption, n: nat)
    requires Inspected(request) && x.Of(request) && n <= |request.versions|
    requires forall j | 0 <= j < n && request.policy.TakesSlot(request.versions[j], request.Excluded()) ::
               request.versions[j].digest !in x.gone
    ensures request.policy.Slots(x.Survivors(request.versions[..n]), x.Next(request).Excluded()) ==
            request.policy.Slots(request.versions[..n], request.Excluded()) + x.OrphanSlots(request, n)
  {
    var prefix := request.versions[..n];
    forall j: nat | j < n
      ensures CountsAs(request.policy, x, prefix[j], request.Excluded(), x.Next(request).Excluded(),
                       j in x.Competing(request))
    {
      ExcludedIffUntaggedChild(request, request.versions[j]);
      if request.versions[j].digest !in x.gone {
        SurvivorSlot(request, x, j);
      }
    }
    CountSlotsAfter(request.policy, x, prefix, request.Excluded(), x.Next(request).Excluded(),
                    x.Competing(request));
  }

  lemma ChosenIffSelected(request: Request, at: nat)
    requires Distinct(request.versions) && at < |request.versions|
    ensures request.versions[at].digest in request.Chosen() <==>
            request.policy.Selects(request.versions, request.Excluded(), at)
  {
  }

  /** Up to a chosen competitor every competitor is chosen, so none is gone. */
  lemma ChosenAhead(request: Request, x: Interruption, n: nat)
    requires Inspected(request) && x.Of(request) && n <= |request.versions|
    requires forall j | 0 <= j < n :: request.policy.Slots(request.versions[..j],
             request.Excluded()) < request.policy.keep
    ensures forall j | 0 <= j < n && request.policy.TakesSlot(request.versions[j], request.Excluded()) ::
              request.versions[j].digest !in x.gone
  {
    ClosureIsClosed(request.references, request.Chosen());
    forall j | 0 <= j < n && request.policy.TakesSlot(request.versions[j], request.Excluded())
      ensures request.versions[j].digest in request.Chosen()
    {
      assert request.policy.Selects(request.versions, request.Excluded(), j);
    }
  }

  // ----- Resuming an interrupted deletion

  /** Without any assumption on the listing order, a version that won a quota
      slot wins it again exactly if the orphans listed before it leave room. */
  lemma SlotSurvivesIff(request: Request, x: Interruption, i: nat) returns (at: nat)
    requires Inspected(request) && x.Of(request) && i < |request.versions| && request.policy.keep > 0
    requires request.policy.TakesSlot(request.versions[i], request.Excluded())
    requires request.policy.Selects(request.versions, request.Excluded(), i)
    ensures at < |x.Next(request).versions| && x.Next(request).versions[at] == request.versions[i]
    ensures request.policy.Selects(x.Next(request).versions, x.Next(request).Excluded(), at) <==>
            request.policy.Slots(request.versions[..i], request.Excluded()) + x.OrphanSlots(request, i)
              < request.policy.keep
  {
    ClosureIsClosed(request.references, request.Chosen());
    assert request.versions[i].digest in request.Chosen();
    at := SurvivorPosition(x, request.versions, i);
    forall j | 0 <= j < i
      ensures request.policy.Slots(request.versions[..j], request.Excluded()) < request.policy.keep
    {
      SlotsMonotone(request.policy, request.versions, request.Excluded(), j, i);
    }
    ChosenAhead(request, x, i);
    SlotsAfter(request, x, i);
    SurvivorSlot(request, x, i);
  }

  /** Whatever is gone hangs below a gone version that lost the quota. */
  lemma {:induction false} GoneHasLostRoot(request: Request, x: Interruption, j: nat) returns (root: nat)
    requires Inspected(request) && x.Of(request) && ParentsListedFirst(request)
    requires j < |request.versions| && request.versions[j].digest in x.gone
    ensures root <= j && request.policy.keep <= request.policy.Slots(request.versions[..root], request.Excluded())
    decreases j
  {
    PurgedLostQuota(request, j);
    if request.UntaggedChild(request.versions[j]) {
      ChildHasParent(request, request.versions[j].digest);
      var parent :| request.IsParent(parent, request.versions[j].digest);
      var v :| v in request.versions && v.digest == parent;
      var k :| 0 <= k < |request.versions| && request.versions[k] == v;
      root := GoneHasLostRoot(request, x, k);
    } else {
      root := j;
    }
  }

  lemma OrphanHasLostRoot(request: Request, x: Interruption, j: nat) returns (root: nat)
    requires Inspected(request) && x.Of(request) && ParentsListedFirst(request)
    requires j < |request.versions| && x.Orphan(request, request.versions[j])
    ensures root < j && request.policy.keep <= request.policy.Slots(request.versions[..root], request.Excluded())
  {
    ChildHasParent(request, request.versions[j].digest);
    var parent :| request.IsParent(parent, request.versions[j].digest);
    var v :| v in request.versions && v.digest == parent;
    var k :| 0 <= k < |request.versions| && request.versions[k] == v;
    root := GoneHasLostRoot(request, x, k);
  }

  lemma NoOrphanNoSlot(request: Request, x: Interruption, n: nat)
    requires n <= |request.versions|
    requires forall j | 0 <= j < n :: !x.Orphan(request, request.versions[j])
    ensures x.OrphanSlots(request, n) == 0
  {
    assert Below(x.Competing(request), n) == {};
  }

  lemma NoOrphanAhead(request: Request, x: Interruption, i: nat)
    requires Inspected(request) && x.Of(request) && ParentsListedFirst(request) && i < |request.versions|
    requires request.policy.Slots(request.versions[..i], request.Excluded()) < request.policy.keep
    ensures x.OrphanSlots(request, i) == 0
  {
    forall j | 0 <= j < i ensures !x.Orphan(request, request.versions[j]) {
      if x.Orphan(request, request.versions[j]) {
        var root := OrphanHasLostRoot(request, x, j);
        SlotsMonotone(request.policy, request.versions, request.Excluded(), root, i);
        assert false;
      }
    }
    NoOrphanNoSlot(request, x, i);
  }

  lemma OrderLeavesRoom(request: Request, x: Interruption)
    requires Inspected(request) && x.Of(request) && ParentsListedFirst(request)
    ensures LeavesRoom(request, x)
  {
    forall i | 0 <= i < |request.versions|
               && request.policy.Slots(request.versions[..i], request.Excluded()) < request.policy.keep
      ensures x.OrphanSlots(request, i) == 0
    {
      NoOrphanAhead(request, x, i);
    }
  }

  /** Exactly when the orphans leave room is every choice made again. */
  lemma ChosenSurvivesIff(request: Request, x: Interruption)
    requires Inspected(request) && x.Of(request) && request.policy.Legal()
    ensures request.Chosen() <= x.Next(request).Chosen() <==> LeavesRoom(request, x)
  {
    NextChosen(request, x);
    if LeavesRoom(request, x) {
      forall i: nat | i < |request.versions| && request.policy.Selects(request.versions, request.Excluded(), i)
        ensures request.versions[i].digest in x.Rechosen(request)
      {
        ChosenIsRechosen(request, x, i);
      }
    }
    if request.Chosen() <= x.Rechosen(request) {
      forall i: nat | i < |request.versions| && WinsSlot(request, i) ensures x.HasRoom(request, i) {
        assert request.policy.Selects(request.versions, request.Excluded(), i);
        WinnerNeedsRoom(request, x, i);
      }
    }
  }

  /** If nothing retained is lost, planning again after an interruption is not refused. */
  lemma ResumeSucceeds(request: Request, x: Interruption)
    requires Inspected(request) && x.Of(request) && !request.Cyclic()
    requires request.Retained() <= x.Next(request).Retained()
    ensures Inspected(x.Next(request)) && !x.Next(request).Cyclic()
  {
    var next := x.Next(request);
    NextIsInspected(request, x);
    forall chain ensures !next.Cycle(chain) {
      if next.Cycle(chain) {
        forall i | 0 <= i < |chain| - 1 ensures request.IsParent(chain[i + 1], chain[i]) {
          ParentsAfter(request, x, chain[i + 1], chain[i]);
        }
        assert request.Cycle(chain);
        assert false;
      }
    }
  }

  /** Where the orphans leave room, planning again after an interrupted deletion
      succeeds and retains everything the interrupted plan retained. */
  lemma ResumeKeeps(request: Request, x: Interruption)
    requires Inspected(request) && x.Of(request) && request.policy.Legal()
    requires LeavesRoom(request, x) && !request.Cyclic()
    ensures Inspected(x.Next(request)) && !x.Next(request).Cyclic()
    ensures request.Retained() <= x.Next(request).Retained()
  {
    RetainedSurvivesIff(request, x);
    ResumeSucceeds(request, x);
  }

  lemma RetainedIsNotGone(request: Request, x: Interruption)
    requires x.Of(request)
    ensures forall d | d in request.Retained() :: Refs(request.references, d) == Refs(x.Next(request).references, d)
  {
    forall d | d in request.Retained() ensures d !in x.gone {
    }
  }

  /** Stopping the execution of a plan after any number of versions, and possibly
      in the middle of removing the tags of the next one, is such an interruption. */
  lemma PrefixIsInterruption(request: Request, plan: RetentionPlan, n: nat, left: map<Digest, seq<string>>)
    requires request.IsPlan(plan) && n <= |plan.deleteOrder|
    requires forall d | d in left :: n < |plan.deleteOrder| && d == plan.deleteOrder[n].digest
    requires forall v, tag | v in request.versions && v.digest in left && tag in left[v.digest] :: tag in v.tags
    ensures Interruption(Digests(plan.deleteOrder[..n]), left).Of(request)
  {
    var order := plan.deleteOrder;
    var x := Interruption(Digests(order[..n]), left);
    RestrictDigests(request.versions, request.Retained());
    forall d | d in x.gone + left.Keys ensures d in Digests(order) {
      if d in left {
        assert order[n] in order;
      }
    }
    forall parent, child | request.IsParent(parent, child) && child in x.gone + left.Keys ensures parent in x.gone {
      var k :| 0 <= k < |order| && k <= n && order[k].digest == child;
      assert parent in Digests(order[..k]);
      var v :| v in order[..k] && v.digest == parent;
      assert v in order[..n];
    }
  }

  // ----- When the resumed run removes exactly the rest

  /** The first position at which the quota is used up. */
  lemma {:induction false} QuotaFillsAt(policy: Policy, versions: seq<RegistryVersion>, excluded: set<Digest>, n: nat)
      returns (full: nat)
    requires n <= |versions| && 0 < policy.keep <= policy.Slots(versions[..n], excluded)
    ensures full <= n && policy.keep <= policy.Slots(versions[..full], excluded)
    ensures forall j | 0 <= j < full :: policy.Slots(versions[..j], excluded) < policy.keep
  {
    if j :| 0 <= j < n && policy.keep <= policy.Slots(versions[..j], excluded) {
      full := QuotaFillsAt(policy, versions, excluded, j);
    } else {
      full := n;
    }
  }

  lemma {:induction false} SlotsOfPrefix(policy: Policy, versions: seq<RegistryVersion>, excluded: set<Digest>,
                                         prefix: seq<RegistryVersion>)
    requires prefix <= versions
    ensures policy.Slots(prefix, excluded) <= policy.Slots(versions, excluded)
  {
    SlotsMonotone(policy, versions, excluded, |prefix|, |versions|);
    assert versions[..|versions|] == versions && versions[..|prefix|] == prefix;
  }

  lemma {:induction false} SurvivorsOfPrefix(x: Interruption, versions: seq<RegistryVersion>, n: nat)
    requires n <= |versions|
    ensures x.Survivors(versions[..n]) <= x.Survivors(versions)
  {
    if n < |versions| {
      SurvivorsOfPrefix(x, versions[..|versions| - 1], n);
      assert versions[..|versions| - 1][..n] == versions[..n];
    } else {
      assert versions[..n] == versions;
    }
  }

  /** Behind a used-up quota nothing wins a slot afterwards either. */
  lemma LateSlotIsLost(request: Request, x: Interruption, i: nat, root: nat)
    requires Inspected(request) && x.Of(request) && root <= i < |request.versions| && 0 < request.policy.keep
    requires request.policy.keep <= request.policy.Slots(request.versions[..root], request.Excluded())
    ensures request.policy.keep <= request.policy.Slots(x.Survivors(request.versions[..i]), x.Next(request).Excluded())
  {
    var full := QuotaFillsAt(request.policy, request.versions, request.Excluded(), root);
    ChosenAhead(request, x, full);
    SlotsAfter(request, x, full);
    SurvivorsOfPrefix(x, request.versions[..i], full);
    assert request.versions[..i][..full] == request.versions[..full];
    SlotsOfPrefix(request.policy, x.Survivors(request.versions[..i]), x.Next(request).Excluded(),
                  x.Survivors(request.versions[..full]));
  }

  // ----- Exactly what a resumed run retains

  /** Behind any survivor the later run finds a free slot exactly if there is room. */
  lemma RoomDecides(request: Request, x: Interruption, i: nat)
    requires Inspected(request) && x.Of(request) && i < |request.versions| && 0 < request.policy.keep
    ensures request.policy.Slots(x.Survivors(request.versions[..i]),
            x.Next(request).Excluded()) < request.policy.keep <==>
            x.HasRoom(request, i)
  {
    if request.policy.keep <= request.policy.Slots(request.versions[..i], request.Excluded()) {
      LateSlotIsLost(request, x, i, i);
    } else {
      forall j | 0 <= j < i
        ensures request.policy.Slots(request.versions[..j], request.Excluded()) < request.policy.keep
      {
        SlotsMonotone(request.policy, request.versions, request.Excluded(), j, i);
      }
      ChosenAhead(request, x, i);
      SlotsAfter(request, x, i);
    }
  }

  /** Without any assumption on the listing order: what the later run chooses is known
      from the interrupted plan and from how far it got. */
  lemma NextChoosesIff(request: Request, x: Interruption, i: nat)
    requires Inspected(request) && x.Of(request) && request.policy.Legal()
    requires i < |request.versions| && request.versions[i].digest !in x.gone
    ensures request.versions[i].digest in x.Next(request).Chosen() <==> x.Rechooses(request, i)
  {
    var next, v := x.Next(request), request.versions[i];
    var at := SurvivorPosition(x, request.versions, i);
    SurvivorsDistinct(x, request.versions);
    ChosenIffSelected(next, at);
    ExcludedAfter(request, x, v);
    ExcludedIffUntaggedChild(request, v);
    SurvivorSlot(request, x, i);
    if request.policy.keep > 0 {
      RoomDecides(request, x, i);
    }
  }

  lemma NextChosen(request: Request, x: Interruption)
    requires Inspected(request) && x.Of(request) && request.policy.Legal()
    ensures x.Next(request).Chosen() == x.Rechosen(request)
  {
    var next := x.Next(request);
    SurvivorsAt(x, request.versions);
    forall d | d in next.Chosen() ensures d in x.Rechosen(request) {
      assert d in Digests(next.versions);
      var v :| v in request.versions && v.digest == d;
      var i :| 0 <= i < |request.versions| && request.versions[i] == v;
      NextChoosesIff(request, x, i);
    }
    forall i: nat | i < |request.versions| && x.Rechooses(request, i)
      ensures request.versions[i].digest in next.Chosen()
    {
      NextChoosesIff(request, x, i);
    }
  }

  /** No survivor refers to anything that is gone. */
  lemma SurvivorsAreClosed(request: Request, x: Interruption)
    requires Inspected(request) && x.Of(request)
    ensures Closed(request.references, Digests(request.versions) - x.gone)
  {
    forall d, child | d in Digests(request.versions) - x.gone && child in Refs(request.references, d)
      ensures child in Digests(request.versions) - x.gone
    {
      assert request.IsParent(d, child);
    }
  }

  /** What the later run retains: all that is reachable, in the graph as it was, from
      what is chosen again. */
  lemma NextRetained(request: Request, x: Interruption)
    requires Inspected(request) && x.Of(request) && request.policy.Legal()
    ensures x.Next(request).Retained() == Closure(request.references, x.Rechosen(request))
  {
    var next, seed := x.Next(request), x.Rechosen(request);
    NextChosen(request, x);
    SurvivorsAreClosed(request, x);
    ClosureBelow(request.references, seed, Digests(request.versions) - x.gone);
    ClosureIsClosed(request.references, seed);
    ClosureIsClosed(next.references, seed);
    ClosureMonotone(request.references, seed, next.references, seed);
    ClosureMonotone(next.references, seed, request.references, seed);
  }

  /** For any listing order, a resumed run retains all that the interrupted plan
      retained if and only if every winner that finds no room hangs below something
      that is chosen again. */
  lemma RetainedSurvivesIff(request: Request, x: Interruption)
    requires Inspected(request) && x.Of(request) && request.policy.Legal()
    ensures request.Retained() <= x.Next(request).Retained() <==>
            forall i: nat | i < |request.versions| && WinsSlot(request, i) && !x.HasRoom(request, i) ::
              request.versions[i].digest in Closure(request.references, x.Rechosen(request))
  {
    var next := x.Next(request);
    NextRetained(request, x);
    NextChosen(request, x);
    ClosureIsClosed(request.references, request.Chosen());
    ClosureIsClosed(next.references, next.Chosen());
    forall i: nat | i < |request.versions| && WinsSlot(request,
        i) ensures request.versions[i].digest in request.Chosen() {
      assert request.policy.Selects(request.versions, request.Excluded(), i);
    }
    if forall i: nat | i < |request.versions| && WinsSlot(request, i) && !x.HasRoom(request, i) ::
         request.versions[i].digest in next.Retained()
    {
      forall d | d in request.Chosen() ensures d in next.Retained() {
        var i: nat :| i < |request.versions| && request.versions[i].digest == d
                      && request.policy.Selects(request.versions, request.Excluded(), i);
        ChosenIsRechosen(request, x, i);
      }
      RetainedIsNotGone(request, x);
      ClosureMonotone(request.references, request.Chosen(), next.references, next.Chosen());
    }
  }

  /** Whoever is chosen and does not lack room is chosen again. */
  lemma ChosenIsRechosen(request: Request, x: Interruption, i: nat)
    requires Inspected(request) && x.Of(request) && i < |request.versions|
    requires request.policy.Selects(request.versions, request.Excluded(), i)
    ensures (WinsSlot(request, i) && !x.HasRoom(request, i)) || request.versions[i].digest in x.Rechosen(request)
  {
    ClosureIsClosed(request.references, request.Chosen());
    assert request.versions[i].digest in request.Chosen();
    ExcludedIffUntaggedChild(request, request.versions[i]);
    assert x.Rechooses(request, i) || (WinsSlot(request, i) && !x.HasRoom(request, i));
  }

  /** For any listing order, a resumed run retains nothing beyond the interrupted plan
      if and only if no orphan is chosen. */
  lemma NothingRescuedIff(request: Request, x: Interruption)
    requires Inspected(request) && x.Of(request) && request.policy.Legal()
    ensures x.Next(request).Retained() <= request.Retained() <==>
            forall i: nat | i < |request.versions| && x.Orphan(request, request.versions[i]) :: !x.Rechooses(request, i)
  {
    NextRetained(request, x);
    ClosureIsClosed(request.references, x.Rechosen(request));
    ClosureIsClosed(request.references, request.Chosen());
    if x.Rechosen(request) <= request.Retained() {
      ClosureBelow(request.references, x.Rechosen(request), request.Retained());
    }
    forall i: nat | i < |request.versions| && x.Rechooses(request, i)
      ensures request.versions[i].digest in x.Rechosen(request)
      ensures request.versions[i].digest in request.Retained() <==> !x.Orphan(request, request.versions[i])
    {
      RechosenIsRetainedOrOrphan(request, x, i);
    }
  }

  lemma RechosenIsRetainedOrOrphan(request: Request, x: Interruption, i: nat)
    requires Inspected(request) && x.Of(request) && request.policy.Legal()
    requires i < |request.versions| && x.Rechooses(request, i)
    ensures request.versions[i].digest in request.Retained() <==> !x.Orphan(request, request.versions[i])
  {
    if x.Orphan(request, request.versions[i]) {
      OrphanIsPurged(request, x, request.versions[i]);
    } else if request.versions[i].digest !in request.Retained() {
      PurgedLostQuota(request, i);
      assert false;
    }
  }

  /** A winner is chosen again only if it finds room. */
  lemma WinnerNeedsRoom(request: Request, x: Interruption, i: nat)
    requires Distinct(request.versions) && i < |request.versions| && WinsSlot(request, i)
    ensures request.versions[i].digest in x.Rechosen(request) ==> x.HasRoom(request, i)
  {
    if request.versions[i].digest in x.Rechosen(request) {
      var j: nat :| j < |request.versions| && x.Rechooses(request, j)
                    && request.versions[j].digest == request.versions[i].digest;
      assert j == i;
    }
  }

  /** Where no winner is itself a child, room alone decides. */
  lemma RoomDecidesForRoots(request: Request, x: Interruption)
    requires Inspected(request) && x.Of(request) && request.policy.Legal()
    requires forall i: nat | i < |request.versions| && WinsSlot(request, i) ::
               request.versions[i].digest !in Children(request.references)
    ensures request.Retained() <= x.Next(request).Retained() <==> LeavesRoom(request, x)
  {
    RetainedSurvivesIff(request, x);
    ReachedIsSeedOrChild(request.references, x.Rechosen(request));
    forall i: nat | i < |request.versions| && WinsSlot(request, i) && !x.HasRoom(request, i)
      ensures request.versions[i].digest !in Closure(request.references, x.Rechosen(request))
    {
      WinnerNeedsRoom(request, x, i);
    }
  }

  lemma OrphanIsPurged(request: Request, x: Interruption, v: RegistryVersion)
    requires Inspected(request) && x.Of(request) && v in request.versions && x.Orphan(request, v)
    requires request.policy.Legal()
    ensures v.digest !in request.Retained() && request.policy.keep != 0
  {
    ClosureIsClosed(request.references, request.Chosen());
    ExcludedIffUntaggedChild(request, v);
    ChildHasParent(request, v.digest);
    var above :| request.IsParent(above, v.digest);
    assert above in x.gone;
    var w :| w in request.versions && w.digest == above;
    var k :| 0 <= k < |request.versions| && request.versions[k] == w;
    PurgedLostQuota(request, k);
    assert v.digest !in request.Chosen();
    forall parent | parent in request.Retained() ensures v.digest !in Refs(request.references, parent) {
      assert request.IsParent(parent, v.digest) <==> v.digest in Refs(request.references, parent);
    }
    if v.digest in request.Retained() {
      ReachedHasReachedParent(request.references, request.Chosen(), v.digest);
      assert false;
    }
  }

  /** Where parents are listed first, the resumed run retains nothing beyond the
      interrupted plan, so it purges exactly the rest of it, if and only if every orphan
      can lose the quota: an orphan of unknown time, or protected by its digest, is
      rescued instead. */
  lemma ResumeFinishesIff(request: Request, x: Interruption)
    requires Inspected(request) && x.Of(request) && ParentsListedFirst(request) && request.policy.Legal()
    ensures x.Next(request).Retained() == request.Retained() <==>
            forall v | v in request.versions && x.Orphan(request, v) :: request.policy.TakesSlot(v, {})
  {
    OrderLeavesRoom(request, x);
    RetainedSurvivesIff(request, x);
    NothingRescuedIff(request, x);
    forall i: nat | i < |request.versions| && x.Orphan(request, request.versions[i])
      ensures x.Rechooses(request, i) <==> !request.policy.TakesSlot(request.versions[i], {})
    {
      OrphanRechosenIff(request, x, i);
    }
    OrphansByPosition(request, x);
  }

  lemma OrphansByPosition(request: Request, x: Interruption)
    ensures (forall v | v in request.versions && x.Orphan(request, v) :: request.policy.TakesSlot(v, {})) <==>
            forall i: nat | i < |request.versions| && x.Orphan(request, request.versions[i]) ::
              request.policy.TakesSlot(request.versions[i], {})
  {
  }

  /** Parents listed first, no room is left where an orphan stands. */
  lemma OrphanRechosenIff(request: Request, x: Interruption, i: nat)
    requires Inspected(request) && x.Of(request) && ParentsListedFirst(request) && request.policy.Legal()
    requires i < |request.versions| && x.Orphan(request, request.versions[i])
    ensures x.Rechooses(request, i) <==> !request.policy.TakesSlot(request.versions[i], {})
  {
    OrphanIsPurged(request, x, request.versions[i]);
    var root := OrphanHasLostRoot(request, x, i);
    SlotsMonotone(request.policy, request.versions, request.Excluded(), root, i);
  }

  lemma OrphanIsRescued(request: Request, x: Interruption, v: RegistryVersion)
    requires Inspected(request) && x.Of(request) && v in request.versions && x.Orphan(request, v)
    requires !request.policy.TakesSlot(v, {})
    ensures v.digest in x.Next(request).Chosen()
  {
    var next := x.Next(request);
    var i :| 0 <= i < |request.versions| && request.versions[i] == v;
    var at := SurvivorPosition(x, request.versions, i);
    ExcludedAfter(request, x, v);
    ExcludedIffUntaggedChild(request, v);
    SurvivorSlot(request, x, i);
    assert next.policy.Selects(next.versions, next.Excluded(), at);
  }

  // ----- Planning again over what a plan keeps

  /** The interruption that is none: the whole plan was carried out. */
  ghost function Completed(request: Request): Interruption {
    Interruption(Digests(request.versions) - request.Retained(), map[])
  }

  lemma {:induction false} CompletedSurvivors(request: Request, versions: seq<RegistryVersion>)
    requires Digests(versions) <= Digests(request.versions)
    ensures Completed(request).Survivors(versions) == Restrict(versions, request.Retained())
  {
    if versions != [] {
      var last := |versions| - 1;
      assert versions[last].digest in Digests(versions);
      assert Digests(versions[..last]) <= Digests(versions);
      CompletedSurvivors(request, versions[..last]);
    }
  }

  /** The second request plans the kept versions, over references that lack at most
      some of what was not retained. */
  ghost predicate PlansKept(request: Request, again: Request) {
    && again.versions == Restrict(request.versions, request.Retained())
    && again.policy == request.policy
    && (forall d | d in again.references :: d in request.references && again.references[d] == request.references[d])
    && (forall d | d in request.references && d in request.Retained() :: d in again.references)
  }

  /** Among the kept versions the excluded ones stay excluded. */
  lemma ExcludedAgain(request: Request, again: Request, v: RegistryVersion)
    requires Distinct(request.versions) && request.policy.Legal() && 0 < request.policy.keep
    requires PlansKept(request, again) && v in again.versions
    ensures v.digest in again.Excluded() <==> v.digest in request.Excluded()
  {
    RestrictDigests(request.versions, request.Retained());
    if v.digest in request.Excluded() {
      var w :| w in request.versions && request.UntaggedChild(w) && w.digest == v.digest;
      SameDigestSameVersion(request.versions, v, w);
      assert v.digest !in request.Chosen();
      ReachedHasReachedParent(request.references, request.Chosen(), v.digest);
      var parent :| parent in request.Retained() && v.digest in Refs(request.references, parent);
      assert parent in again.references && v.digest in again.references[parent];
      assert again.UntaggedChild(v);
    }
    if v.digest in again.Excluded() {
      var w :| w in again.versions && again.UntaggedChild(w) && w.digest == v.digest;
      assert request.UntaggedChild(w);
    }
  }

  lemma {:induction false} FewerSlotsKept(policy: Policy, versions: seq<RegistryVersion>, digests: set<Digest>,
                                          excluded: set<Digest>, excluded': set<Digest>)
    requires forall v | v in versions && v.digest in digests && v.digest in excluded :: v.digest in excluded'
    ensures policy.Slots(Restrict(versions, digests), excluded') <= policy.Slots(versions, excluded)
  {
    if versions != [] {
      var last := |versions| - 1;
      FewerSlotsKept(policy, versions[..last], digests, excluded, excluded');
      SlotsSnoc(policy, Restrict(versions[..last], digests),
                if versions[last].digest in digests then [versions[last]] else [], excluded');
    }
  }

  /** What was chosen is chosen again: it was kept, and no more competes ahead of it. */
  lemma ChosenAgain(request: Request, again: Request, i: nat)
    requires Distinct(request.versions) && request.policy.Legal() && PlansKept(request, again)
    requires i < |request.versions| && request.policy.Selects(request.versions, request.Excluded(), i)
    ensures request.versions[i].digest in again.Chosen()
  {
    var x, v := Completed(request), request.versions[i];
    ClosureIsClosed(request.references, request.Chosen());
    assert v.digest in request.Chosen();
    CompletedSurvivors(request, request.versions);
    var at := SurvivorPosition(x, request.versions, i);
    if 0 < request.policy.keep {
      assert Digests(request.versions[..i]) <= Digests(request.versions);
      CompletedSurvivors(request, request.versions[..i]);
      RestrictDigests(request.versions, request.Retained());
      forall w | w in request.versions && w.digest in request.Retained()
        ensures w.digest in again.Excluded() <==> w.digest in request.Excluded()
      {
        ExcludedAgain(request, again, w);
      }
      FewerSlotsKept(request.policy, request.versions[..i], request.Retained(), request.Excluded(), again.Excluded());
    }
    assert again.policy.Selects(again.versions, again.Excluded(), at);
  }

  lemma {:induction false} RestrictToAll(versions: seq<RegistryVersion>, digests: set<Digest>)
    requires Digests(versions) <= digests
    ensures Restrict(versions, digests) == versions && Drop(versions, digests) == []
  {
    if versions != [] {
      var last := |versions| - 1;
      assert versions[last].digest in Digests(versions);
      assert Digests(versions[..last]) <= Digests(versions);
      RestrictToAll(versions[..last], digests);
      assert versions == versions[..last] + [versions[last]];
    }
  }

  lemma NothingPurged(again: Request)
    requires Digests(again.versions) <= again.Retained()
    ensures !again.Cyclic()
    ensures forall plan | again.IsPlan(plan) :: plan == RetentionPlan(again.versions, [], [], 0)
  {
    forall chain ensures !again.Cycle(chain) {
      if again.Chain(chain) && |chain| > 1 {
        assert again.IsParent(chain[1], chain[0]);
        assert chain[1] in chain && chain[1] in again.Retained();
      }
    }
    RestrictToAll(again.versions, again.Retained());
    forall plan | again.IsPlan(plan) ensures plan == RetentionPlan(again.versions, [], [], 0) {
      assert |plan.deleteOrder| == 0 || plan.deleteOrder[0].digest in Digests(plan.deleteOrder);
    }
  }

  lemma RetainedAgain(request: Request, again: Request)
    requires Distinct(request.versions) && request.policy.Legal() && PlansKept(request, again)
    ensures request.Retained() <= again.Retained()
  {
    forall d | d in request.Chosen() ensures d in again.Chosen() {
      var i: nat :| i < |request.versions| && request.versions[i].digest == d
                    && request.policy.Selects(request.versions, request.Excluded(), i);
      ChosenAgain(request, again, i);
    }
    ClosureIsClosed(again.references, again.Chosen());
    ClosureMonotone(request.references, request.Chosen(), again.references, again.Chosen());
  }

  /** Planning again over exactly the kept versions succeeds and purges nothing, with
      the references as they were, restricted to what is retained, or anything in
      between; they may hold more digests than are listed. */
  lemma ReplanningKeptPurgesNothing(request: Request, plan: RetentionPlan, again: Request)
    requires Distinct(request.versions) && request.Complete() && request.policy.Legal() && request.IsPlan(plan)
    requires PlansKept(request, again)
    ensures again.Complete() && !again.Cyclic()
    ensures forall plan' | again.IsPlan(plan') :: plan' == RetentionPlan(plan.kept, [], [], 0)
  {
    RestrictDigests(request.versions, request.Retained());
    ClosureIsClosed(request.references, request.Chosen());
    forall v, child | v in again.versions && child in Refs(again.references,
        v.digest) ensures child in again.references {
      assert child in Refs(request.references, v.digest);
    }
    RetainedAgain(request, again);
    NothingPurged(again);
  }

  // ----- What a plan contains

  /** Kept and purged versions split the listing, each in listing order, and the
      delete order is a rearrangement of the purged versions. */
  lemma PlanSplitsListing(request: Request, plan: RetentionPlan)
    requires request.IsPlan(plan) && Distinct(request.versions)
    ensures multiset(plan.kept) + multiset(plan.purged) == multiset(request.versions)
    ensures multiset(plan.deleteOrder) == multiset(plan.purged)
  {
    RestrictAndDrop(request.versions, request.Retained());
    RestrictDigests(request.versions, request.Retained());
    DropDistinct(request.versions, request.Retained());
    forall v ensures v in plan.deleteOrder <==> v in plan.purged {
      if v in plan.deleteOrder {
        assert v.digest in Digests(plan.purged);
      }
      if v in plan.purged {
        assert v.digest in Digests(plan.deleteOrder);
        var w :| w in plan.deleteOrder && w.digest == v.digest;
        SameDigestSameVersion(request.versions, v, w);
      }
    }
    SameVersions(plan.deleteOrder, plan.purged);
  }

  /** What the preview keeps without knowing the graph, the plan keeps as well,
      unless it is an untagged child, if the plan keeps and protects at least as much. */
  lemma PreviewedIsRetained(request: Request, preview: Policy, v: RegistryVersion)
    requires Distinct(request.versions) && preview.NoLooserThan(request.policy)
    requires v in request.versions && !request.UntaggedChild(v)
    requires v.digest in preview.Selected(request.versions, {})
    ensures v.digest in request.Retained()
  {
    ClosureIsClosed(request.references, request.Chosen());
    ExcludedIffUntaggedChild(request, v);
    var i :| 0 <= i < |request.versions| && preview.Selects(request.versions, {}, i)
             && request.versions[i].digest == v.digest;
    SelectionMonotone(preview, request.policy, request.versions, {}, request.Excluded(), i);
    ChosenIffSelected(request, i);
  }

  // ----- The listing order is needed

  const CHILD := RegistryVersion("c", [], 3)
  const NEWER := RegistryVersion("k", ["new"], 2)
  const INDEX := RegistryVersion("i", ["old"], 1)

  ghost const CHILD_BEFORE_INDEX :=
    Request([CHILD, NEWER, INDEX], Policy("app", 1, {}), map["c" := [], "k" := [], "i" := ["c"]])

  lemma ChildBeforeIndexExcluded()
    ensures CHILD_BEFORE_INDEX.Excluded() == {"c"} && Inspected(CHILD_BEFORE_INDEX)
  {
    var request := CHILD_BEFORE_INDEX;
    assert "i" in request.references && request.references["i"] == ["c"] && "c" in request.references["i"];
    assert "c" in Children(request.references);
    assert CHILD in request.versions;
  }

  lemma ChildBeforeIndexSlots()
    ensures CHILD_BEFORE_INDEX.policy.Selected(CHILD_BEFORE_INDEX.versions, {"c"}) == {"k"}
  {
    var policy, versions := CHILD_BEFORE_INDEX.policy, CHILD_BEFORE_INDEX.versions;
    SlotsSnoc(policy, [], [CHILD], {"c"});
    SlotsSnoc(policy, [CHILD], [NEWER], {"c"});
    assert [] + [CHILD] == versions[..1] && [CHILD] + [NEWER] == versions[..2];
    assert policy.Slots(versions[..1], {"c"}) == 0 && policy.Slots(versions[..2], {"c"}) == 1;
    assert !policy.Selects(versions, {"c"}, 0);
    assert policy.Selects(versions, {"c"}, 1);
    assert !policy.Selects(versions, {"c"}, 2);
  }

  lemma ChildBeforeIndexRetained()
    ensures CHILD_BEFORE_INDEX.Excluded() == {"c"} && CHILD_BEFORE_INDEX.Retained() == {"k"}
  {
    ChildBeforeIndexExcluded();
    ChildBeforeIndexSlots();
    ClosureBelow(CHILD_BEFORE_INDEX.references, {"k"}, {"k"});
    ClosureIsClosed(CHILD_BEFORE_INDEX.references, {"k"});
  }

  lemma ChildBeforeIndexSplit()
    ensures Restrict(CHILD_BEFORE_INDEX.versions, {"k"}) == [NEWER]
    ensures Drop(CHILD_BEFORE_INDEX.versions, {"k"}) == [CHILD, INDEX]
  {
    var versions := CHILD_BEFORE_INDEX.versions;
    assert versions[..1] == [CHILD] && versions[..2] == [CHILD, NEWER] && versions[..2][..1] == versions[..1];
    assert Restrict(versions[..1], {"k"}) == [] && Restrict(versions[..2], {"k"}) == [NEWER];
    assert Drop(versions[..1], {"k"}) == [CHILD] && Drop(versions[..2], {"k"}) == [CHILD];
  }

  lemma ChildBeforeIndexOrder()
    ensures CHILD_BEFORE_INDEX.ParentsFirst([INDEX, CHILD])
    ensures Digests([INDEX, CHILD]) == Digests([CHILD, INDEX]) == {"i", "c"}
  {
    var order := [INDEX, CHILD];
    assert INDEX in order && CHILD in order && INDEX in [CHILD, INDEX] && CHILD in [CHILD, INDEX];
    assert order[..1] == [INDEX] && INDEX in order[..1];
  }

  lemma ChildBeforeIndexPlan(plan: RetentionPlan)
    requires plan == RetentionPlan([NEWER], [CHILD, INDEX], [INDEX, CHILD], 1)
    ensures CHILD_BEFORE_INDEX.IsPlan(plan)
  {
    ChildBeforeIndexRetained();
    ChildBeforeIndexSplit();
    ChildBeforeIndexOrder();
    assert plan.purged[..1] == [CHILD];
    assert CHILD_BEFORE_INDEX.UntaggedChild(CHILD) by {
      assert CHILD.digest in CHILD_BEFORE_INDEX.Excluded();
    }
    assert CHILD_BEFORE_INDEX.UserFacing(plan.purged[..1]) == 0;
  }

  lemma ChildTakesSlot(next: Request)
    requires next.versions == [CHILD, NEWER] && next.policy == Policy("app", 1, {})
    requires next.references == map["c" := [], "k" := []]
    ensures next.Retained() == {"c"}
  {
    assert next.Excluded() == {};
    assert next.versions[..1] == [CHILD] && next.policy.Slots(next.versions[..1], {}) == 1;
    assert next.policy.Selects(next.versions, {}, 0) && !next.policy.Selects(next.versions, {}, 1);
    assert next.Chosen() == {"c"};
    ClosureBelow(next.references, {"c"}, {"c"});
    ClosureIsClosed(next.references, {"c"});
  }

  lemma ChildBeforeIndexNext(x: Interruption)
    requires x == Interruption({"i"}, map[])
    ensures x.Next(CHILD_BEFORE_INDEX).Retained() == {"c"}
  {
    var versions := CHILD_BEFORE_INDEX.versions;
    assert versions[..1] == [CHILD] && versions[..2] == [CHILD, NEWER] && versions[..2][..1] == versions[..1];
    assert x.Survivors(versions[..1]) == [CHILD] && x.Survivors(versions[..2]) == [CHILD, NEWER];
    ChildTakesSlot(x.Next(CHILD_BEFORE_INDEX));
  }

  lemma ChildBeforeIndexInterrupted(plan: RetentionPlan, x: Interruption)
    requires plan == RetentionPlan([NEWER], [CHILD, INDEX], [INDEX, CHILD], 1)
    requires x == Interruption({"i"}, map[])
    ensures x.gone == Digests(plan.deleteOrder[..1]) && x.Of(CHILD_BEFORE_INDEX)
  {
    ChildBeforeIndexPlan(plan);
    assert plan.deleteOrder[..1] == [INDEX] && INDEX in [INDEX];
    PrefixIsInterruption(CHILD_BEFORE_INDEX, plan, 1, map[]);
  }

  /** Without the listing order the promise fails: once its index is gone, a newer
      untagged child takes the slot of a version the interrupted plan kept. */
  lemma NewerOrphanTakesSlot() returns (plan: RetentionPlan, x: Interruption)
    ensures Inspected(CHILD_BEFORE_INDEX) && CHILD_BEFORE_INDEX.policy.Legal() && CHILD_BEFORE_INDEX.IsPlan(plan)
    ensures |plan.deleteOrder| == 2 && x == Interruption(Digests(plan.deleteOrder[..1]), map[])
    ensures x.Of(CHILD_BEFORE_INDEX)
    ensures exists v :: v in plan.kept && v.digest !in x.Next(CHILD_BEFORE_INDEX).Retained()
  {
    plan := RetentionPlan([NEWER], [CHILD, INDEX], [INDEX, CHILD], 1);
    x := Interruption({"i"}, map[]);
    ChildBeforeIndexExcluded();
    ChildBeforeIndexPlan(plan);
    ChildBeforeIndexInterrupted(plan, x);
    ChildBeforeIndexNext(x);
    ghost var next := x.Next(CHILD_BEFORE_INDEX).Retained();
    assert plan.kept == [NEWER] && NEWER in [NEWER] && NEWER.digest !in next;
  }
}
