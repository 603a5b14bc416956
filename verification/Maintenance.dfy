/** A retention run against the container: list, group, inspect, plan, delete
    (internal/service/registry_maintenance.go). Every tree on the way lists as an
    interruption of the plan, so a later run resumes it. */
module Maintenance {
  import opened Basics
  import opened Ordering
  import opened Selection
  import opened ManifestGraph
  import opened VersionLists
  import opened Planner
  import opened RetentionLaws
  import opened Versions
  import opened RegistryPaths
  import opened RegistryTree
  import opened RegistryStore

  // ----- The versions a tree holds

  ghost predicate Present(tree: Tree, repository: string, digest: Digest) {
    RevisionAt(tree, repository, digest).Some? || exists tag :: TagAt(tree, repository, tag) == Some(digest)
  }

  ghost predicate Describes(tree: Tree, repository: string, version: RegistryVersion) {
    && version.pushedAt == RevisionTime(tree, repository, version.digest)
    && StrictlyOrdered(StringLess, version.tags)
    && forall tag :: tag in version.tags <==> TagAt(tree, repository, tag) == Some(version.digest)
  }

  /** The list has each version of the repository, described, in strict order. */
  ghost predicate IsVersions(tree: Tree, repository: string, versions: seq<RegistryVersion>) {
    && StrictlyOrdered(Before, versions)
    && (forall v | v in versions :: Describes(tree, repository, v) && Present(tree, repository, v.digest))
    && (forall d | Present(tree, repository, d) :: d in Digests(versions))
  }

  lemma {:induction false} StrictStringsAreUnique(a: seq<string>, b: seq<string>)
    requires StrictlyOrdered(StringLess, a) && StrictlyOrdered(StringLess, b) && forall s :: s in a <==> s in b
    ensures a == b
  {
    StringLessIsStrictOrder();
    assert |b| == 0 || b[0] in b;
    assert |a| == 0 || a[0] in a;
    if a != [] {
      assert a[0] == b[0];
      assert a == [a[0]] + a[1..] && b == [b[0]] + b[1..];
      forall s ensures s in a[1..] <==> s in b[1..] {
        assert s in a[1..] <==> s in a && s != a[0];
        assert s in b[1..] <==> s in b && s != b[0];
      }
      StrictStringsAreUnique(a[1..], b[1..]);
    }
  }

  /** A tree has one list of versions. */
  lemma VersionsAreUnique(tree: Tree, repository: string, a: seq<RegistryVersion>, b: seq<RegistryVersion>)
    requires IsVersions(tree, repository, a) && IsVersions(tree, repository, b)
    ensures a == b
  {
    forall v ensures v in a <==> v in b {
      if v in a {
        SameVersion(tree, repository, a, b, v);
      }
      if v in b {
        SameVersion(tree, repository, b, a, v);
      }
    }
    StrictIsUnique(a, b);
  }

  lemma SameVersion(tree: Tree, repository: string, a: seq<RegistryVersion>, b: seq<RegistryVersion>,
                    v: RegistryVersion)
    requires IsVersions(tree, repository, a) && IsVersions(tree, repository, b) && v in a
    ensures v in b
  {
    var w :| w in b && w.digest == v.digest;
    StrictStringsAreUnique(v.tags, w.tags);
  }

  // ----- From a listing to versions

  function ToImage(row: RegistryContent): RegistryImage {
    RegistryImage(row.repository, row.tag, row.digest, row.manifestPushedAt)
  }

  predicate ImageLess(left: RegistryImage, right: RegistryImage) {
    if left.repository != right.repository then StringLess(left.repository, right.repository)
    else if left.tag != right.tag then StringLess(left.tag, right.tag)
    else StringLess(left.digest, right.digest)
  }

  ghost predicate IsListingOf(tree: Tree, rows: seq<RegistryContent>) {
    NoRepeats(rows) && forall row :: row in rows <==> Listed(tree, row)
  }

  method ListRegistryVersionImages(rows: seq<RegistryContent>) returns (images: seq<RegistryImage>)
    ensures multiset(images) == multiset(seq(|rows|, i requires 0 <= i < |rows| => ToImage(rows[i])))
  {
    images := [];
    for i := 0 to |rows|
      invariant images == seq(i, k requires 0 <= k < i => ToImage(rows[k]))
    {
      images := images + [ToImage(rows[i])];
    }
    images := Sort(ImageLess, images);
  }

  /** The rows put each tag of the repository on one digest, each row once. */
  lemma ListedImages(tree: Tree, rows: seq<RegistryContent>, images: seq<RegistryImage>)
    requires IsListingOf(tree, rows)
    requires multiset(images) == multiset(seq(|rows|, i requires 0 <= i < |rows| => ToImage(rows[i])))
    ensures forall image :: image in images <==> exists row :: row in rows && ToImage(row) == image
    ensures forall i, j | 0 <= i < j < |images| :: images[i] != images[j]
  {
    var mapped := seq(|rows|, i requires 0 <= i < |rows| => ToImage(rows[i]));
    Ordering.SameElements(images, mapped);
    forall image | image in images ensures exists row :: row in rows && ToImage(row) == image {
      var i :| 0 <= i < |mapped| && mapped[i] == image;
      assert rows[i] in rows;
    }
    forall row | row in rows ensures ToImage(row) in images {
      var i :| 0 <= i < |rows| && rows[i] == row;
      assert mapped[i] == ToImage(row) && mapped[i] in mapped;
    }
    forall i, j | 0 <= i < j < |mapped| ensures mapped[i] != mapped[j] {
      assert !SameRow(rows[i], rows[j]);
    }
    NoRepeatAsMultiset(mapped, images);
  }

  lemma {:induction false} CountAtMostOnce<T>(s: seq<T>, x: T)
    requires forall i, j | 0 <= i < j < |s| :: s[i] != s[j]
    ensures multiset(s)[x] <= 1
  {
    if s != [] {
      var last := |s| - 1;
      CountAtMostOnce(s[..last], x);
      assert s == s[..last] + [s[last]];
    }
  }

  lemma NoRepeatAsMultiset<T>(a: seq<T>, b: seq<T>)
    requires multiset(a) == multiset(b) && forall i, j | 0 <= i < j < |a| :: a[i] != a[j]
    ensures forall i, j | 0 <= i < j < |b| :: b[i] != b[j]
  {
    forall i, j | 0 <= i < j < |b| ensures b[i] != b[j] {
      CountAtMostOnce(a, b[i]);
      if b[i] == b[j] {
        RepeatCountsTwice(b, i, j);
        assert false;
      }
    }
  }

  lemma ListedTime(tree: Tree, row: RegistryContent)
    requires Listed(tree, row)
    ensures row.manifestPushedAt == RevisionTime(tree, row.repository, row.digest) && row.digest != ""
  {
  }

  lemma TagIsListed(tree: Tree, repository: string, tag: string, digest: Digest) returns (row: RegistryContent)
    requires TagAt(tree, repository, tag) == Some(digest)
    ensures Listed(tree, row) && row.repository == repository && row.tag == tag && row.digest == digest && tag != ""
  {
    row := RegistryContent(repository, tag, digest, tree[TagLinkPath(repository, tag)].modTime,
                           RevisionTime(tree, repository, digest));
  }

  lemma PresentIsListed(tree: Tree, repository: string, digest: Digest) returns (row: RegistryContent)
    requires Present(tree, repository, digest)
    ensures Listed(tree, row) && row.repository == repository && row.digest == digest
  {
    if tag :| TagAt(tree, repository, tag) == Some(digest) {
      row := TagIsListed(tree, repository, tag, digest);
    } else {
      var time := RevisionAt(tree, repository, digest).value;
      row := RegistryContent(repository, "", digest, time, time);
    }
  }

  lemma ListedIsPresent(tree: Tree, row: RegistryContent)
    requires Listed(tree, row)
    ensures Present(tree, row.repository, row.digest)
  {
  }

  ghost predicate ImagesOf(tree: Tree, images: seq<RegistryImage>) {
    && (forall image :: image in images <==> exists row :: Listed(tree, row) && ToImage(row) == image)
    && (forall i, j | 0 <= i < j < |images| :: images[i] != images[j])
  }

  lemma ImageNames(tree: Tree, images: seq<RegistryImage>, repository: string, tag: string, digest: Digest)
    requires ImagesOf(tree, images)
    ensures tag != "" && NamedBy(images, repository, tag, digest) <==> TagAt(tree, repository, tag) == Some(digest)
  {
    if tag != "" && NamedBy(images, repository, tag, digest) {
      var image :| image in images && Belongs(image, repository) && image.digest == digest && image.tag == tag;
      var row :| Listed(tree, row) && ToImage(row) == image;
    }
    if TagAt(tree, repository, tag) == Some(digest) {
      var row := TagIsListed(tree, repository, tag, digest);
      ListedTime(tree, row);
      assert ToImage(row) in images;
    }
  }

  lemma AllPushedAtRevisionTime(tree: Tree, images: seq<RegistryImage>, repository: string, digest: Digest)
    requires ImagesOf(tree, images) && digest in DigestsOf(images, repository)
    ensures LatestPush(images, repository, digest) == RevisionTime(tree, repository, digest)
  {
    forall image | image in images && Belongs(image, repository) && image.digest == digest
      ensures image.pushedAt == RevisionTime(tree, repository, digest)
    {
      var row :| Listed(tree, row) && ToImage(row) == image;
      ListedTime(tree, row);
    }
    LatestPushIsMax(images, repository, digest);
  }

  lemma SingletonSet(s: set<nat>)
    requires forall x, y | x in s && y in s :: x == y
    ensures |s| <= 1
  {
    if s != {} {
      var x :| x in s;
      assert s == {x};
    }
  }

  lemma TagsStrict(tree: Tree, images: seq<RegistryImage>, repository: string, versions: seq<RegistryVersion>,
                   v: RegistryVersion)
    requires ImagesOf(tree, images) && IsGrouping(images, repository, versions) && v in versions
    ensures StrictlyOrdered(StringLess, v.tags)
  {
    GroupingMeaning(images, repository, versions);
    forall i, j | 0 <= i < j < |v.tags| ensures StringLess(v.tags[i], v.tags[j]) {
      StringLessTotal(v.tags[i], v.tags[j]);
      if v.tags[i] == v.tags[j] {
        RepeatCountsTwice(v.tags, i, j);
        var rows := RowsFor(images, repository, v.digest, v.tags[i]);
        forall x, y | x in rows && y in rows ensures x == y {
          SameImage(tree, images, x, y);
        }
        SingletonSet(rows);
        assert false;
      }
    }
  }

  lemma SameImage(tree: Tree, images: seq<RegistryImage>, x: nat, y: nat)
    requires ImagesOf(tree, images) && x < |images| && y < |images|
    requires images[x].repository == images[y].repository && images[x].digest == images[y].digest
    requires images[x].tag == images[y].tag
    ensures x == y
  {
    assert images[x] in images && images[y] in images;
    var row :| Listed(tree, row) && ToImage(row) == images[x];
    var row' :| Listed(tree, row') && ToImage(row') == images[y];
    ListedTime(tree, row);
    ListedTime(tree, row');
  }

  /** Grouping the listing of a tree gives the versions the tree holds. */
  lemma GroupedListing(tree: Tree, images: seq<RegistryImage>, repository: string, versions: seq<RegistryVersion>)
    requires ImagesOf(tree, images) && IsGrouping(images, repository, versions)
    ensures IsVersions(tree, repository, versions)
  {
    GroupingMeaning(images, repository, versions);
    forall v | v in versions ensures Describes(tree, repository, v) && Present(tree, repository, v.digest) {
      AllPushedAtRevisionTime(tree, images, repository, v.digest);
      TagsStrict(tree, images, repository, versions, v);
      forall tag ensures tag in v.tags <==> TagAt(tree, repository, tag) == Some(v.digest) {
        TagIffNamed(images, repository, versions, v, tag);
        ImageNames(tree, images, repository, tag, v.digest);
      }
      var image :| image in images && Belongs(image, repository) && image.digest == v.digest;
      var row :| Listed(tree, row) && ToImage(row) == image;
      ListedIsPresent(tree, row);
    }
    forall d | Present(tree, repository, d) ensures d in Digests(versions) {
      var row := PresentIsListed(tree, repository, d);
      ListedTime(tree, row);
      assert ToImage(row) in images;
    }
  }

  // ----- Trees on the way are interruptions of the plan

  /** The request a run plans for a tree: its versions, and their references as
      the manifests say. */
  ghost predicate IsRequest(tree: Tree, manifests: References, request: Request) {
    && IsVersions(tree, request.policy.repository, request.versions)
    && request.references == ReferencesOf(manifests, Digests(request.versions))
  }

  ghost function ReferencesOf(manifests: References, digests: set<Digest>): References {
    map d | d in digests :: Refs(manifests, d)
  }

  /** Of the repository the versions in gone are gone, some tags of the partial
      one may be, and nothing else happened. */
  ghost predicate Stage(before: Tree, after: Tree, repository: string, gone: set<Digest>, partial: Option<Digest>) {
    && (forall tag :: TagAt(after, repository, tag) != TagAt(before, repository, tag) ==>
          && TagAt(after, repository, tag).None?
          && (TagAt(before, repository, tag).value in gone || Some(TagAt(before, repository, tag).value) == partial))
    && (forall d | d in gone :: NoTagNames(after, repository, d) && RevisionAt(after, repository, d).None?)
    && (forall d | d !in gone :: RevisionAt(after, repository, d) == RevisionAt(before, repository, d))
  }

  /** The tree is one of those a run through the order passes. */
  ghost predicate StageOf(before: Tree, after: Tree, repository: string, order: seq<RegistryVersion>, n: nat,
                          partial: Option<Digest>)
  {
    && n <= |order|
    && (partial.None? || (n < |order| && partial == Some(order[n].digest)))
    && Stage(before, after, repository, Digests(order[..n]), partial)
  }

  ghost predicate Reached(before: Tree, after: Tree, repository: string, order: seq<RegistryVersion>) {
    exists n, partial :: StageOf(before, after, repository, order, n, partial)
  }

  /** The tags of the version that are still there. */
  function TagsLeft(tree: Tree, repository: string, digest: Digest, tags: seq<string>): seq<string> {
    if tags == [] then [] else
      var last := |tags| - 1;
      TagsLeft(tree, repository, digest, tags[..last])
      + if TagAt(tree, repository, tags[last]) == Some(digest) then [tags[last]] else []
  }

  lemma {:induction false} TagsLeftProperties(tree: Tree, repository: string, digest: Digest, tags: seq<string>)
    ensures forall tag :: tag in TagsLeft(tree, repository, digest, tags) <==>
                          tag in tags && TagAt(tree, repository, tag) == Some(digest)
  {
    if tags != [] {
      var last := |tags| - 1;
      TagsLeftProperties(tree, repository, digest, tags[..last]);
      assert tags == tags[..last] + [tags[last]];
    }
  }

  lemma {:induction false} TagsLeftOrdered(tree: Tree, repository: string, digest: Digest, tags: seq<string>)
    requires StrictlyOrdered(StringLess, tags)
    ensures StrictlyOrdered(StringLess, TagsLeft(tree, repository, digest, tags))
  {
    if tags != [] {
      var last := |tags| - 1;
      TagsLeftOrdered(tree, repository, digest, tags[..last]);
      TagsLeftProperties(tree, repository, digest, tags[..last]);
      forall tag | tag in TagsLeft(tree, repository, digest, tags[..last]) ensures StringLess(tag, tags[last]) {
        assert tag in tags[..last];
      }
    }
  }

  lemma {:induction false} SurvivorsOrdered(x: Interruption, versions: seq<RegistryVersion>)
    requires StrictlyOrdered(Before, versions)
    ensures StrictlyOrdered(Before, x.Survivors(versions))
  {
    if versions != [] {
      var last := |versions| - 1;
      SurvivorsOrdered(x, versions[..last]);
      SurvivorsAt(x, versions[..last]);
      forall v | v in x.Survivors(versions[..last]) ensures Before(v, x.Survivor(versions[last])) {
        var w :| w in versions[..last] && v == x.Survivor(w);
        assert Before(w, versions[last]);
      }
    }
  }

  lemma SurvivorDescribed(before: Tree, after: Tree, repository: string, gone: set<Digest>, partial: Option<Digest>,
                          x: Interruption, v: RegistryVersion)
    requires Describes(before, repository, v) && Present(before, repository, v.digest)
    requires Stage(before, after, repository, gone, partial) && v.digest !in gone
    requires partial == Some(v.digest) ==>
               && v.digest in x.left && x.left[v.digest] == TagsLeft(after, repository, v.digest, v.tags)
               && Present(after, repository, v.digest)
    requires partial != Some(v.digest) ==> v.digest !in x.left
    ensures Describes(after, repository, x.Survivor(v)) && Present(after, repository, v.digest)
  {
    TagsLeftProperties(after, repository, v.digest, v.tags);
    TagsLeftOrdered(after, repository, v.digest, v.tags);
    forall tag
      ensures TagAt(after, repository, tag) == Some(v.digest) ==> TagAt(before, repository, tag) == Some(v.digest)
      ensures partial != Some(v.digest) && TagAt(before, repository, tag) == Some(v.digest) ==>
                TagAt(after, repository, tag) == Some(v.digest)
    {
    }
  }

  lemma WholeStageIsInterruption(before: Tree, after: Tree, manifests: References, request: Request,
                                 plan: RetentionPlan, n: nat)
      returns (x: Interruption)
    requires IsRequest(before, manifests, request) && request.IsPlan(plan) && n <= |plan.deleteOrder|
    requires Stage(before, after, request.policy.repository, Digests(plan.deleteOrder[..n]), None)
    ensures x.Of(request) && IsRequest(after, manifests, x.Next(request))
  {
    x := Interruption(Digests(plan.deleteOrder[..n]), map[]);
    PrefixIsInterruption(request, plan, n, map[]);
    StageRequest(before, after, manifests, request, x.gone, None, x);
  }

  lemma DigestsOfPrefix(order: seq<RegistryVersion>, n: nat)
    requires n < |order|
    ensures Digests(order[..n + 1]) == Digests(order[..n]) + {order[n].digest}
  {
    assert order[..n + 1] == order[..n] + [order[n]];
    DigestsSnoc(order[..n], order[n]);
  }

  lemma VanishedStageIsInterruption(before: Tree, after: Tree, manifests: References, request: Request,
                                    plan: RetentionPlan, n: nat)
      returns (x: Interruption)
    requires IsRequest(before, manifests, request) && request.IsPlan(plan) && n < |plan.deleteOrder|
    requires Stage(before, after, request.policy.repository, Digests(plan.deleteOrder[..n]),
                   Some(plan.deleteOrder[n].digest))
    requires !Present(after, request.policy.repository, plan.deleteOrder[n].digest)
    ensures x.Of(request) && IsRequest(after, manifests, x.Next(request))
  {
    var order := plan.deleteOrder;
    DigestsOfPrefix(order, n);
    x := Interruption(Digests(order[..n + 1]), map[]);
    PrefixIsInterruption(request, plan, n + 1, map[]);
    StageRequest(before, after, manifests, request, Digests(order[..n]), Some(order[n].digest), x);
  }

  lemma PartialStageIsInterruption(before: Tree, after: Tree, manifests: References, request: Request,
                                   plan: RetentionPlan, n: nat)
      returns (x: Interruption)
    requires IsRequest(before, manifests, request) && request.IsPlan(plan) && n < |plan.deleteOrder|
    requires Stage(before, after, request.policy.repository, Digests(plan.deleteOrder[..n]),
                   Some(plan.deleteOrder[n].digest))
    requires Present(after, request.policy.repository, plan.deleteOrder[n].digest)
    ensures x.Of(request) && IsRequest(after, manifests, x.Next(request))
  {
    var repository, v := request.policy.repository, plan.deleteOrder[n];
    assert v in plan.deleteOrder && v in request.versions;
    x := Interruption(Digests(plan.deleteOrder[..n]), map[v.digest := TagsLeft(after, repository, v.digest, v.tags)]);
    TagsLeftProperties(after, repository, v.digest, v.tags);
    LeftTagsAreTags(before, after, request, v, x);
    PrefixIsInterruption(request, plan, n, x.left);
    StageRequest(before, after, manifests, request, x.gone, Some(v.digest), x);
  }

  /** A tree reached by a run is what an interruption of its plan leaves. */
  lemma ReachedIsInterruption(before: Tree, after: Tree, manifests: References, request: Request, plan: RetentionPlan)
      returns (x: Interruption)
    requires IsRequest(before, manifests, request) && request.IsPlan(plan)
    requires Reached(before, after, request.policy.repository, plan.deleteOrder)
    ensures x.Of(request) && IsRequest(after, manifests, x.Next(request))
  {
    var n: nat, partial: Option<Digest> :|
      StageOf(before, after, request.policy.repository, plan.deleteOrder, n, partial);
    if partial.None? {
      x := WholeStageIsInterruption(before, after, manifests, request, plan, n);
    } else if Present(after, request.policy.repository, partial.value) {
      x := PartialStageIsInterruption(before, after, manifests, request, plan, n);
    } else {
      x := VanishedStageIsInterruption(before, after, manifests, request, plan, n);
    }
  }

  lemma LeftTagsAreTags(before: Tree, after: Tree, request: Request, v: RegistryVersion, x: Interruption)
    requires IsVersions(before, request.policy.repository, request.versions) && v in request.versions
    requires x.left.Keys == {v.digest} && forall tag | tag in x.left[v.digest] :: tag in v.tags
    requires x.left[v.digest] == TagsLeft(after, request.policy.repository, v.digest, v.tags)
    ensures forall w, tag | w in request.versions && w.digest in x.left && tag in x.left[w.digest] :: tag in w.tags
    ensures forall w | w in request.versions && w.digest in x.left ::
              x.left[w.digest] == TagsLeft(after, request.policy.repository, w.digest, w.tags)
  {
    forall w | w in request.versions && w.digest == v.digest ensures w == v {
      SameDescription(before, request.policy.repository, v, w);
    }
  }

  lemma SameDescription(tree: Tree, repository: string, v: RegistryVersion, w: RegistryVersion)
    requires Describes(tree, repository, v) && Describes(tree, repository, w) && v.digest == w.digest
    ensures v == w
  {
    StrictStringsAreUnique(v.tags, w.tags);
  }

  /** The interruption drops what the stage lost, and trims what it trimmed. */
  ghost predicate Matches(after: Tree, repository: string, versions: seq<RegistryVersion>, gone: set<Digest>,
                          partial: Option<Digest>, x: Interruption)
  {
    if partial.Some? && !Present(after, repository, partial.value)
    then x.gone == gone + {partial.value} && x.left == map[]
    else
      && x.gone == gone && x.left.Keys == (if partial.Some? then {partial.value} else {})
      && forall v | v in versions && v.digest in x.left ::
           x.left[v.digest] == TagsLeft(after, repository, v.digest, v.tags)
  }

  lemma StageVersions(before: Tree, after: Tree, repository: string, versions: seq<RegistryVersion>,
                      gone: set<Digest>, partial: Option<Digest>, x: Interruption)
    requires IsVersions(before, repository, versions) && Stage(before, after, repository, gone, partial)
    requires Matches(after, repository, versions, gone, partial, x)
    ensures IsVersions(after, repository, x.Survivors(versions))
  {
    SurvivorsAt(x, versions);
    SurvivorsOrdered(x, versions);
    var survivors := x.Survivors(versions);
    forall v | v in survivors ensures Describes(after, repository, v) && Present(after, repository, v.digest) {
      var w :| w in versions && w.digest !in x.gone && v == x.Survivor(w);
      SurvivorDescribed(before, after, repository, gone, partial, x, w);
    }
    forall d | Present(after, repository, d) ensures d in Digests(survivors) {
      StagePresent(before, after, repository, gone, partial, d);
    }
  }

  lemma StageRequest(before: Tree, after: Tree, manifests: References, request: Request,
                     gone: set<Digest>, partial: Option<Digest>, x: Interruption)
    requires IsRequest(before, manifests, request)
    requires Stage(before, after, request.policy.repository, gone, partial)
    requires Matches(after, request.policy.repository, request.versions, gone, partial, x)
    ensures IsRequest(after, manifests, x.Next(request))
  {
    StageVersions(before, after, request.policy.repository, request.versions, gone, partial, x);
    NextReferences(manifests, request, x);
  }

  lemma NextReferences(manifests: References, request: Request, x: Interruption)
    requires request.references == ReferencesOf(manifests, Digests(request.versions))
    ensures x.Next(request).references == ReferencesOf(manifests, Digests(x.Survivors(request.versions)))
  {
    SurvivorsAt(x, request.versions);
  }

  lemma StagePresent(before: Tree, after: Tree, repository: string, gone: set<Digest>, partial: Option<Digest>,
                     digest: Digest)
    requires Stage(before, after, repository, gone, partial) && Present(after, repository, digest)
    ensures Present(before, repository, digest) && digest !in gone
  {
    if tag :| TagAt(after, repository, tag) == Some(digest) {
      assert TagAt(before, repository, tag) == Some(digest);
    }
  }

  // ----- Executing a plan

  /** One version's deletion, seen through tags and revisions. */
  lemma DeletingSeen(before: Tree, after: Tree, repository: string, digest: Digest, other: string)
    requires Deleting(before, after, repository, digest) && ValidRepository(repository) && ValidDigest(digest)
    ensures forall tag :: TagAt(after, other, tag) != TagAt(before, other, tag) ==>
              other == repository && TagAt(after, other, tag).None? && TagAt(before, other, tag) == Some(digest)
    ensures forall d :: RevisionAt(after, other, d) != RevisionAt(before, other, d) ==>
              && other == repository && d == digest
              && RevisionAt(after, other, d).None? && NoTagNames(after, repository, digest)
  {
    RevisionRoundTrip(repository, digest);
    LinksAreTold(RevisionPath(repository, digest));
    forall tag | TagAt(after, other, tag) != TagAt(before, other, tag)
      ensures other == repository && TagAt(after, other, tag).None? && TagAt(before, other, tag) == Some(digest)
    {
      TagLinkRoundTrip(other, tag);
      TagLinkIsLink(other, tag);
    }
    forall d | RevisionAt(after, other, d) != RevisionAt(before, other, d)
      ensures other == repository && d == digest
      ensures RevisionAt(after, other, d).None? && NoTagNames(after, repository, digest)
    {
      RevisionRoundTrip(other, d);
      RevisionIsLink(other, d);
      LinksAreTold(RevisionPath(other, d));
    }
  }

  lemma DeletingStage(before: Tree, middle: Tree, after: Tree, repository: string, gone: set<Digest>, digest: Digest)
    requires Stage(before, middle, repository, gone, None)
    requires Deleting(middle, after, repository, digest) && ValidRepository(repository) && ValidDigest(digest)
    ensures Stage(before, after, repository, gone, Some(digest))
            || Stage(before, after, repository, gone + {digest}, None)
    ensures Deleted(after, repository, digest) ==> Stage(before, after, repository, gone + {digest}, None)
  {
    DeletingSeen(middle, after, repository, digest, repository);
    forall tag | TagAt(after, repository, tag) != TagAt(before, repository, tag)
      ensures TagAt(after, repository, tag).None?
      ensures TagAt(before, repository, tag).value in gone + {digest}
    {
      assert TagAt(after, repository, tag) != TagAt(middle, repository, tag)
             || TagAt(middle, repository, tag) != TagAt(before, repository, tag);
    }
    forall d | d in gone ensures NoTagNames(after, repository, d) && RevisionAt(after, repository, d).None? {
      forall tag ensures TagAt(after, repository, tag) != Some(d) {
        assert TagAt(middle, repository, tag) != Some(d);
      }
    }
  }

  /** The repository is listed the same from both trees. */
  ghost predicate SameView(before: Tree, after: Tree, repository: string) {
    && (forall tag :: TagAt(after, repository, tag) == TagAt(before, repository, tag))
    && (forall d :: RevisionAt(after, repository, d) == RevisionAt(before, repository, d))
  }

  lemma SameViewSameStage(before: Tree, middle: Tree, after: Tree, repository: string,
                          gone: set<Digest>, partial: Option<Digest>)
    requires Stage(before, middle, repository, gone, partial) && SameView(middle, after, repository)
    ensures Stage(before, after, repository, gone, partial)
  {
    forall d | d in gone ensures NoTagNames(after, repository, d) {
      assert NoTagNames(middle, repository, d);
    }
  }

  lemma SameViewReached(before: Tree, middle: Tree, after: Tree, repository: string, order: seq<RegistryVersion>)
    requires Reached(before, middle, repository, order) && SameView(middle, after, repository)
    ensures Reached(before, after, repository, order)
  {
    var n: nat, partial: Option<Digest> :| StageOf(before, middle, repository, order, n, partial);
    SameViewSameStage(before, middle, after, repository, Digests(order[..n]), partial);
    assert StageOf(before, after, repository, order, n, partial);
  }

  /** Another repository does not see the deletion. */
  lemma DeletingElsewhere(before: Tree, middle: Tree, after: Tree, repository: string, digest: Digest)
    requires Deleting(middle, after, repository, digest) && ValidRepository(repository) && ValidDigest(digest)
    requires forall other | other != repository :: SameView(before, middle, other)
    ensures forall other | other != repository :: SameView(before, after, other)
  {
    forall other | other != repository ensures SameView(before, after, other) {
      DeletingSeen(middle, after, repository, digest, other);
      assert SameView(middle, after, other) && SameView(before, middle, other);
    }
  }

  /** Deletes the versions in order; a cancelled context or a failing command
      stops the run. Every tree on the way is a stage of the order. */
  method DeleteInOrder(registry: Registry, container: string, repository: string, order: seq<RegistryVersion>)
      returns (error: Option<StoreError>)
    requires registry.Recorded()
    modifies registry
    ensures registry.Recorded() && old(registry.history) <= registry.history
    ensures forall k | |old(registry.history)| <= k < |registry.history| ::
              Reached(old(registry.files), registry.history[k], repository, order)
    ensures forall k, other | |old(registry.history)| <= k < |registry.history| && other != repository ::
              SameView(old(registry.files), registry.history[k], other)
    ensures forall other | other != repository :: SameView(old(registry.files), registry.files, other)
    ensures error.None? ==> Stage(old(registry.files), registry.files, repository, Digests(order), None)
  {
    for i := 0 to |order|
      invariant registry.Recorded() && old(registry.history) <= registry.history
      invariant forall k | |old(registry.history)| <= k < |registry.history| ::
                  Reached(old(registry.files), registry.history[k], repository, order)
      invariant forall k, other | |old(registry.history)| <= k < |registry.history| && other != repository ::
                  SameView(old(registry.files), registry.history[k], other)
      invariant forall other | other != repository :: SameView(old(registry.files), registry.files, other)
      invariant Stage(old(registry.files), registry.files, repository, Digests(order[..i]), None)
    {
      var cancelled: bool := *;
      if cancelled {
        return Some(Cancelled);
      }
      ghost var middle, steps := registry.files, |registry.history|;
      error := registry.DeleteRegistryVersion(container, repository, order[i].digest);
      forall k | steps <= k < |registry.history|
        ensures Reached(old(registry.files), registry.history[k], repository, order)
        ensures forall other | other != repository :: SameView(old(registry.files), registry.history[k], other)
      {
        DeletingReached(old(registry.files), middle, registry.history[k], repository, order, i);
        DeletingElsewhere(old(registry.files), middle, registry.history[k], repository, order[i].digest);
      }
      assert |registry.history| > steps ==> registry.files == registry.history[|registry.history| - 1];
      assert |registry.history| == steps ==> registry.files == middle;
      if error.Some? {
        return;
      }
      DeletingReached(old(registry.files), middle, registry.files, repository, order, i);
    }
    assert order[..|order|] == order;
    return None;
  }

  lemma DeletingReached(before: Tree, middle: Tree, after: Tree, repository: string, order: seq<RegistryVersion>,
                        i: nat)
    requires i < |order| && Stage(before, middle, repository, Digests(order[..i]), None)
    requires Deleting(middle, after, repository, order[i].digest)
    requires ValidRepository(repository) && ValidDigest(order[i].digest)
    ensures Reached(before, after, repository, order)
    ensures Deleted(after, repository, order[i].digest) ==>
              Stage(before, after, repository, Digests(order[..i + 1]), None)
  {
    DeletingStage(before, middle, after, repository, Digests(order[..i]), order[i].digest);
    DigestsOfPrefix(order, i);
    assert StageOf(before, after, repository, order, i, Some(order[i].digest))
           || StageOf(before, after, repository, order, i + 1, None);
  }

  // ----- Resuming

  ghost predicate NoDanglingTag(tree: Tree, repository: string) {
    forall tag | TagAt(tree, repository, tag).Some? ::
      RevisionAt(tree, repository, TagAt(tree, repository, tag).value).Some?
  }

  /** Every manifest the repository holds refers only to manifests it holds. */
  ghost predicate ReferencesHeld(tree: Tree, repository: string, manifests: References) {
    forall d, child | Present(tree, repository, d) && child in Refs(manifests, d) :: Present(tree, repository, child)
  }

  lemma CompleteIsHeld(tree: Tree, manifests: References, request: Request)
    requires IsRequest(tree, manifests, request) && request.Complete()
    ensures ReferencesHeld(tree, request.policy.repository, manifests)
  {
    forall d, child | Present(tree, request.policy.repository, d) && child in Refs(manifests, d)
      ensures Present(tree, request.policy.repository, child)
    {
      var v :| v in request.versions && v.digest == d;
      assert Refs(request.references, v.digest) == Refs(manifests, d);
      assert child in Refs(request.references, v.digest);
      assert child in request.references && child in Digests(request.versions);
    }
  }

  lemma RequestIsInspected(tree: Tree, manifests: References, request: Request)
    requires IsRequest(tree, manifests, request) && request.Complete()
    ensures Inspected(request)
  {
    BeforeIsStrictOrder();
    forall i, j | 0 <= i < j < |request.versions| ensures request.versions[i].digest != request.versions[j].digest {
      var v, w := request.versions[i], request.versions[j];
      assert v in request.versions && w in request.versions && Before(v, w);
      if v.digest == w.digest {
        SameDescription(tree, request.policy.repository, v, w);
        assert false;
      }
    }
  }

  lemma SameTreeSameRequest(tree: Tree, manifests: References, a: Request, b: Request)
    requires IsRequest(tree, manifests, a) && IsRequest(tree, manifests, b) && a.policy == b.policy
    ensures a == b
  {
    VersionsAreUnique(tree, a.policy.repository, a.versions, b.versions);
  }

  lemma ParentIsBefore(request: Request, v: RegistryVersion, w: RegistryVersion)
    requires StrictlyOrdered(Before, request.versions) && ParentsListedFirst(request)
    requires v in request.versions && w in request.versions && request.IsParent(v.digest, w.digest)
    ensures Before(v, w)
  {
    var k :| 0 <= k < |request.versions| && request.versions[k] == v;
    var l :| 0 <= l < |request.versions| && request.versions[l] == w;
    assert k < l;
  }

  lemma BeforeIsEarlier(versions: seq<RegistryVersion>, i: nat, j: nat)
    requires StrictlyOrdered(Before, versions) && i < |versions| && j < |versions| && Before(versions[i], versions[j])
    ensures i < j
  {
    BeforeIsStrictOrder();
  }

  lemma SurvivingParentIsBefore(request: Request, x: Interruption, v: RegistryVersion, w: RegistryVersion)
    requires StrictlyOrdered(Before, request.versions) && ParentsListedFirst(request)
    requires v in request.versions && w in request.versions && x.Next(request).IsParent(v.digest, w.digest)
    ensures Before(x.Survivor(v), x.Survivor(w))
  {
    ParentsAfter(request, x, v.digest, w.digest);
    ParentIsBefore(request, v, w);
  }

  lemma SurvivorOrigin(x: Interruption, versions: seq<RegistryVersion>, at: nat) returns (v: RegistryVersion)
    requires at < |x.Survivors(versions)|
    ensures v in versions && x.Survivors(versions)[at] == x.Survivor(v)
  {
    SurvivorsAt(x, versions);
    var survivor := x.Survivors(versions)[at];
    assert survivor in x.Survivors(versions);
    v :| v in versions && survivor == x.Survivor(v);
  }

  /** The survivors list parents before children if the versions did. */
  lemma OrderSurvives(request: Request, x: Interruption)
    requires StrictlyOrdered(Before, request.versions) && ParentsListedFirst(request)
    ensures ParentsListedFirst(x.Next(request))
  {
    SurvivorsOrdered(x, request.versions);
    forall i: nat, j: nat | i < |x.Next(request).versions| && j < |x.Next(request).versions|
                            && x.Next(request).IsParent(x.Next(request).versions[i].digest,
                                                        x.Next(request).versions[j].digest)
      ensures i < j
    {
      var v := SurvivorOrigin(x, request.versions, i);
      var w := SurvivorOrigin(x, request.versions, j);
      SurvivingParentIsBefore(request, x, v, w);
      BeforeIsEarlier(x.Next(request).versions, i, j);
    }
  }

  /** At every tree an interrupted run passes, in whatever order the versions are
      listed, every manifest refers to manifests that are there, and no tag names a
      missing revision if none did before. */
  lemma NothingDangles(before: Tree, after: Tree, manifests: References, request: Request, plan: RetentionPlan)
    requires IsRequest(before, manifests, request) && request.Complete() && request.IsPlan(plan)
    requires Reached(before, after, request.policy.repository, plan.deleteOrder)
    ensures ReferencesHeld(after, request.policy.repository, manifests)
    ensures NoDanglingTag(before, request.policy.repository) ==> NoDanglingTag(after, request.policy.repository)
  {
    RequestIsInspected(before, manifests, request);
    var x := ReachedIsInterruption(before, after, manifests, request, plan);
    NextIsInspected(request, x);
    CompleteIsHeld(after, manifests, x.Next(request));
    if NoDanglingTag(before, request.policy.repository) {
      DanglingPreserved(before, after, request.policy.repository, plan.deleteOrder);
    }
  }

  /** What a later run plans at any tree an interrupted run passes. In whatever order
      the versions are listed, its graph is complete, and it retains all that the
      interrupted plan retained exactly if every winner that finds no room hangs below
      something that is chosen again. */
  lemma LaterRequest(before: Tree, after: Tree, manifests: References, request: Request, plan: RetentionPlan)
      returns (later: Request, x: Interruption)
    requires IsRequest(before, manifests, request) && request.Complete() && request.policy.Legal()
    requires request.IsPlan(plan) && Reached(before, after, request.policy.repository, plan.deleteOrder)
    ensures x.Of(request) && later == x.Next(request)
    ensures IsRequest(after, manifests, later) && later.policy == request.policy && later.Complete()
    ensures forall v | v in plan.kept :: v in later.versions
    ensures request.Retained() <= later.Retained() <==>
            forall i: nat | i < |request.versions| && WinsSlot(request, i) && !x.HasRoom(request, i) ::
              request.versions[i].digest in Closure(request.references, x.Rechosen(request))
  {
    RequestIsInspected(before, manifests, request);
    x := ReachedIsInterruption(before, after, manifests, request, plan);
    later := x.Next(request);
    NextIsInspected(request, x);
    KeptSurvive(request, plan, x);
    RetainedSurvivesIff(request, x);
  }

  /** Where parents are listed before their children, planning succeeds, retains all
      the interrupted plan retained, and lists parents first again; every kept version
      is there with its tags. */
  lemma ResumeFromReachedTree(before: Tree, after: Tree, manifests: References, request: Request, plan: RetentionPlan)
      returns (later: Request)
    requires IsRequest(before, manifests, request) && request.Complete() && request.policy.Legal()
    requires request.IsPlan(plan) && ParentsListedFirst(request)
    requires Reached(before, after, request.policy.repository, plan.deleteOrder)
    ensures IsRequest(after, manifests, later) && later.policy == request.policy
    ensures later.Complete() && !later.Cyclic() && ParentsListedFirst(later)
    ensures request.Retained() <= later.Retained()
    ensures forall v | v in plan.kept :: v in later.versions && v.digest in later.Retained()
  {
    RequestIsInspected(before, manifests, request);
    TopologicalHasNoCycle(request, plan);
    var x;
    later, x := LaterRequest(before, after, manifests, request, plan);
    OrderLeavesRoom(request, x);
    ResumeKeeps(request, x);
    OrderSurvives(request, x);
    RestrictDigests(request.versions, request.Retained());
  }

  lemma KeptSurvive(request: Request, plan: RetentionPlan, x: Interruption)
    requires x.Of(request) && request.IsPlan(plan)
    ensures forall v | v in plan.kept :: v in x.Next(request).versions && v.digest in request.Retained()
  {
    RestrictDigests(request.versions, request.Retained());
    SurvivorsAt(x, request.versions);
    forall v | v in plan.kept ensures v in x.Next(request).versions {
      assert v == x.Survivor(v);
    }
  }

  lemma DanglingPreserved(before: Tree, after: Tree, repository: string, order: seq<RegistryVersion>)
    requires Reached(before, after, repository, order) && NoDanglingTag(before, repository)
    ensures NoDanglingTag(after, repository)
  {
    var n: nat, partial: Option<Digest> :| StageOf(before, after, repository, order, n, partial);
    forall tag | TagAt(after, repository, tag).Some?
      ensures RevisionAt(after, repository, TagAt(after, repository, tag).value).Some?
    {
      assert TagAt(after, repository, tag) == TagAt(before, repository, tag);
    }
  }

  // ----- Any number of interrupted runs

  /** One run: it plans the tree it finds and stops in a tree it reaches. */
  datatype Run = Run(before: Tree, after: Tree, request: Request, plan: RetentionPlan) {
    ghost predicate Valid(manifests: References) {
      && IsRequest(before, manifests, request) && request.Complete() && request.policy.Legal()
      && request.IsPlan(plan)
      && Reached(before, after, request.policy.repository, plan.deleteOrder)
    }

    /** The next run of the repository finds the tree this one left. */
    ghost predicate Precedes(next: Run) {
      next.before == after && next.request.policy.repository == request.policy.repository
    }

    /** And it plans under the same policy. */
    ghost predicate FollowedBy(next: Run) {
      Precedes(next) && next.request.policy == request.policy
    }
  }

  /** However often runs are interrupted, in whatever order versions are listed, and
      even if the policy changes between them: none leaves a manifest or, if there
      was none before, a tag that names a missing one. */
  lemma {:induction false} NothingEverDangles(manifests: References, runs: seq<Run>, n: nat)
    requires n < |runs| && forall i | 0 <= i < |runs| :: runs[i].Valid(manifests)
    requires forall i | 0 <= i < |runs| - 1 :: runs[i].Precedes(runs[i + 1])
    ensures runs[n].request.policy.repository == runs[0].request.policy.repository
    ensures ReferencesHeld(runs[n].after, runs[0].request.policy.repository, manifests)
    ensures NoDanglingTag(runs[0].before, runs[0].request.policy.repository) ==>
              NoDanglingTag(runs[n].after, runs[0].request.policy.repository)
  {
    if n > 0 {
      NothingEverDangles(manifests, runs, n - 1);
      assert runs[n - 1].Precedes(runs[n - 1 + 1]);
    }
    NothingDangles(runs[n].before, runs[n].after, manifests, runs[n].request, runs[n].plan);
  }

  lemma NextRun(manifests: References, run: Run, next: Run)
    requires run.Valid(manifests) && next.Valid(manifests) && run.FollowedBy(next)
    requires ParentsListedFirst(run.request)
    ensures ParentsListedFirst(next.request) && run.request.Retained() <= next.request.Retained()
    ensures forall v | v in run.plan.kept :: v in next.plan.kept
  {
    var later := ResumeFromReachedTree(run.before, run.after, manifests, run.request, run.plan);
    SameTreeSameRequest(run.after, manifests, later, next.request);
    RestrictDigests(next.request.versions, next.request.Retained());
  }

  /** However often runs are interrupted, each of them keeps every version the first
      one kept, where the first listing had parents before their children. */
  lemma {:induction false} ManyInterruptedRuns(manifests: References, runs: seq<Run>, n: nat)
    requires n < |runs| && forall i | 0 <= i < |runs| :: runs[i].Valid(manifests)
    requires forall i | 0 <= i < |runs| - 1 :: runs[i].FollowedBy(runs[i + 1])
    requires ParentsListedFirst(runs[0].request)
    ensures ParentsListedFirst(runs[n].request) && runs[n].request.policy == runs[0].request.policy
    ensures runs[0].request.Retained() <= runs[n].request.Retained()
    ensures forall v | v in runs[0].plan.kept :: v in runs[n].plan.kept
  {
    if n > 0 {
      ManyInterruptedRuns(manifests, runs, n - 1);
      assert runs[n - 1].FollowedBy(runs[n - 1 + 1]);
      NextRun(manifests, runs[n - 1], runs[n]);
    }
  }

  /** What the tree promises under the policy: planning it is not refused for its
      graph, parents are listed first, and these versions are retained. */
  ghost predicate Promises(tree: Tree, manifests: References, policy: Policy, kept: set<RegistryVersion>) {
    exists request :: PromisedBy(tree, manifests, policy, kept, request)
  }

  ghost predicate PromisedBy(tree: Tree, manifests: References, policy: Policy, kept: set<RegistryVersion>,
                             request: Request)
  {
    && IsRequest(tree, manifests, request) && request.policy == policy && request.Complete()
    && ParentsListedFirst(request)
    && forall v | v in kept :: v in request.versions && v.digest in request.Retained()
  }

  /** A run keeps the promise at every tree it passes. */
  lemma RunKeepsPromise(manifests: References, run: Run, kept: set<RegistryVersion>)
    requires run.Valid(manifests) && Promises(run.before, manifests, run.request.policy, kept)
    ensures Promises(run.after, manifests, run.request.policy, kept)
  {
    var request :| PromisedBy(run.before, manifests, run.request.policy, kept, request);
    SameTreeSameRequest(run.before, manifests, request, run.request);
    var later := ResumeFromReachedTree(run.before, run.after, manifests, request, run.plan);
    RestrictDigests(request.versions, request.Retained());
    forall v | v in kept ensures v in later.versions && v.digest in later.Retained() {
      assert v in run.plan.kept;
    }
    assert PromisedBy(run.after, manifests, run.request.policy, kept, later);
  }

  lemma SameViewSamePresence(before: Tree, after: Tree, repository: string, digest: Digest)
    requires SameView(before, after, repository)
    ensures Present(after, repository, digest) <==> Present(before, repository, digest)
  {
  }

  lemma SameViewSameVersions(before: Tree, after: Tree, repository: string, versions: seq<RegistryVersion>)
    requires SameView(before, after, repository) && IsVersions(before, repository, versions)
    ensures IsVersions(after, repository, versions)
  {
    forall d ensures Present(after, repository, d) <==> Present(before, repository, d) {
      SameViewSamePresence(before, after, repository, d);
    }
    forall v | v in versions ensures Describes(after, repository, v) {
      assert Describes(before, repository, v);
    }
  }

  lemma SameViewSamePromise(before: Tree, after: Tree, manifests: References, policy: Policy,
                            kept: set<RegistryVersion>)
    requires SameView(before, after, policy.repository) && Promises(before, manifests, policy, kept)
    ensures Promises(after, manifests, policy, kept)
  {
    var request :| PromisedBy(before, manifests, policy, kept, request);
    SameViewSameVersions(before, after, policy.repository, request.versions);
    assert PromisedBy(after, manifests, policy, kept, request);
  }

  // ----- A whole run

  datatype RunError = Unavailable(store: StoreError) | ManifestUnreadable | PlanRefused(reason: RetentionError)

  datatype Batch = Batch(repository: string, versions: seq<RegistryVersion>, count: nat)

  /** The settings of a run: the global keep count, the exceptions to it, and the
      keys of deployed images. */
  datatype Settings = Settings(defaultKeep: int, policies: map<string, int>, protected: set<string>) {
    function For(repository: string): Policy {
      Policy(repository, EffectiveRegistryKeep(defaultKeep, policies, repository), protected)
    }
  }

  ghost predicate Planned(tree: Tree, manifests: References, settings: Settings, batch: Batch,
                          request: Request, plan: RetentionPlan)
  {
    && IsRequest(tree, manifests, request) && request.policy == settings.For(batch.repository)
    && request.Complete() && request.policy.Legal() && request.IsPlan(plan)
    && batch.versions == plan.deleteOrder && batch.count == plan.purgedVersions
  }

  /** The batch is what planning its repository for the tree orders. */
  ghost predicate IsBatch(tree: Tree, manifests: References, settings: Settings, batch: Batch) {
    exists request, plan :: Planned(tree, manifests, settings, batch, request, plan)
  }

  /** Planning the repository fails: a manifest cannot be read, or the planner has a
      reason to refuse. */
  ghost predicate Unplannable(tree: Tree, manifests: References, policy: Policy) {
    exists request :: IsRequest(tree, manifests, request) && request.policy == policy && Refused(manifests, request)
  }

  ghost predicate Refused(manifests: References, request: Request) {
    !(Digests(request.versions) <= manifests.Keys) || !request.Complete() || !request.policy.Legal() || request.Cyclic()
  }

  /** The repository has its batch, or nothing is to be deleted in it. */
  ghost predicate Covered(tree: Tree, manifests: References, settings: Settings, repository: string,
                          batches: seq<Batch>)
  {
    exists batch ::
      && IsBatch(tree, manifests, settings, batch) && batch.repository == repository
      && (batch in batches || batch.versions == [])
  }

  /** The user-facing versions of the batches. */
  function CountOf(batches: seq<Batch>): nat {
    if batches == [] then 0 else CountOf(batches[..|batches| - 1]) + batches[|batches| - 1].count
  }

  /** The count of a batch is counted once, wherever the batches are cut. */
  lemma {:induction false} CountsAdd(a: seq<Batch>, b: seq<Batch>)
    ensures CountOf(a + b) == CountOf(a) + CountOf(b) && (|b| == 1 ==> CountOf(b) == b[0].count)
  {
    if b == [] {
      assert a + b == a;
    } else {
      var last := |b| - 1;
      CountsAdd(a, b[..last]);
      assert (a + b)[..|a + b| - 1] == a + b[..last];
    }
  }

  method InspectManifests(versions: seq<RegistryVersion>, manifests: References)
      returns (r: Option<References>)
    ensures r.Some? ==> r.value == ReferencesOf(manifests, Digests(versions))
    ensures r.Some? <==> Digests(versions) <= manifests.Keys
  {
    var references: References := map[];
    for i := 0 to |versions|
      invariant references == ReferencesOf(manifests, Digests(versions[..i]))
      invariant Digests(versions[..i]) <= manifests.Keys
    {
      DigestsOfPrefix(versions, i);
      if versions[i].digest !in manifests {
        assert versions[i] in versions && versions[i].digest in Digests(versions);
        return None;
      }
      references := references[versions[i].digest := manifests[versions[i].digest]];
    }
    assert versions[..|versions|] == versions;
    return Some(references);
  }

  /** Groups, inspects and plans one repository. */
  method PlanRepository(images: seq<RegistryImage>, repository: string, settings: Settings, manifests: References,
                        ghost tree: Tree)
      returns (r: Result<Batch, RunError>)
    requires ImagesOf(tree, images)
    ensures r.Ok? ==> r.value.repository == repository && IsBatch(tree, manifests, settings, r.value)
    ensures r.Err? ==> Unplannable(tree, manifests, settings.For(repository))
  {
    var versions := GroupRegistryVersions(images, repository);
    GroupedListing(tree, images, repository, versions);
    var references := InspectManifests(versions, manifests);
    ghost var inspected := Request(versions, settings.For(repository), ReferencesOf(manifests, Digests(versions)));
    assert IsRequest(tree, manifests, inspected);
    if references.None? {
      assert Refused(manifests, inspected);
      return Err(ManifestUnreadable);
    }
    var request := Request(versions, settings.For(repository), references.value);
    assert request == inspected;
    var plan := PlanRegistryRetention(request);
    if plan.Err? {
      assert plan.error.GraphIncomplete? || plan.error.KeepInvalid? || plan.error.GraphCyclic?;
      assert plan == Err(plan.error) && Refused(manifests, request);
      return Err(PlanRefused(plan.error));
    }
    var batch := Batch(repository, plan.value.deleteOrder, plan.value.purgedVersions);
    assert Planned(tree, manifests, settings, batch, request, plan.value);
    return Ok(batch);
  }

  method RepositoryNames(images: seq<RegistryImage>) returns (names: seq<string>)
    ensures forall i, j | 0 <= i < j < |names| :: names[i] != names[j]
    ensures forall name :: name in names <==> exists image :: image in images && image.repository == name
  {
    var repositories: set<string> := {};
    for i := 0 to |images|
      invariant repositories == set image | image in images[..i] :: image.repository
    {
      assert images[..i + 1] == images[..i] + [images[i]];
      repositories := repositories + {images[i].repository};
    }
    assert images[..|images|] == images;
    var listed: seq<string> := [];
    var pending := repositories;
    while pending != {}
      invariant pending <= repositories && forall i, j | 0 <= i < j < |listed| :: listed[i] != listed[j]
      invariant forall name :: name in listed <==> name in repositories - pending
    {
      var name :| name in pending;
      assert name !in listed;
      listed := listed + [name];
      pending := pending - {name};
    }
    names := Sort(StringLess, listed);
    Ordering.SameElements(listed, names);
    NoRepeatAsMultiset(listed, names);
  }

  /** One batch at most for each of the named repositories. */
  ghost predicate OneEach(names: seq<string>, batches: seq<Batch>) {
    && (forall i, j | 0 <= i < j < |batches| :: batches[i].repository != batches[j].repository)
    && (forall i | 0 <= i < |batches| :: batches[i].repository in names)
  }

  ghost predicate AllPlanned(tree: Tree, manifests: References, settings: Settings, batches: seq<Batch>) {
    forall i | 0 <= i < |batches| :: IsBatch(tree, manifests, settings, batches[i]) && batches[i].versions != []
  }

  ghost predicate AllCovered(tree: Tree, manifests: References, settings: Settings, names: seq<string>,
                             batches: seq<Batch>)
  {
    forall name | name in names :: Covered(tree, manifests, settings, name, batches)
  }

  lemma NextOfEach(names: seq<string>, batches: seq<Batch>, batch: Batch)
    requires OneEach(names, batches) && batch.repository !in names
    ensures OneEach(names + [batch.repository], batches)
    ensures OneEach(names + [batch.repository], batches + [batch])
  {
  }

  lemma NextCovered(tree: Tree, manifests: References, settings: Settings, names: seq<string>, before: seq<Batch>,
                    after: seq<Batch>, batch: Batch)
    requires AllCovered(tree, manifests, settings, names, before) && before <= after
    requires IsBatch(tree, manifests, settings, batch) && (batch in after || batch.versions == [])
    ensures AllCovered(tree, manifests, settings, names + [batch.repository], after)
  {
    OwnIsCovered(tree, manifests, settings, batch, after);
    forall name | name in names ensures Covered(tree, manifests, settings, name, after) {
      StaysCovered(tree, manifests, settings, name, before, after);
    }
  }

  lemma OwnIsCovered(tree: Tree, manifests: References, settings: Settings, batch: Batch, batches: seq<Batch>)
    requires IsBatch(tree, manifests, settings, batch) && (batch in batches || batch.versions == [])
    ensures Covered(tree, manifests, settings, batch.repository, batches)
  {
  }

  method PlanAll(images: seq<RegistryImage>, names: seq<string>, settings: Settings, manifests: References,
                 ghost tree: Tree)
      returns (planned: seq<Batch>, refusal: Option<RunError>)
    requires ImagesOf(tree, images) && forall i, j | 0 <= i < j < |names| :: names[i] != names[j]
    ensures refusal.None? ==>
              && OneEach(names, planned) && AllPlanned(tree, manifests, settings, planned)
              && AllCovered(tree, manifests, settings, names, planned)
    ensures refusal.Some? ==> exists name :: name in names && Unplannable(tree, manifests, settings.For(name))
  {
    planned := [];
    for i := 0 to |names|
      invariant OneEach(names[..i], planned) && AllPlanned(tree, manifests, settings, planned)
      invariant AllCovered(tree, manifests, settings, names[..i], planned)
    {
      assert names[..i + 1] == names[..i] + [names[i]];
      var batch := PlanRepository(images, names[i], settings, manifests, tree);
      if batch.Err? {
        return planned, Some(batch.error);
      }
      ghost var before := planned;
      NextOfEach(names[..i], planned, batch.value);
      if |batch.value.versions| > 0 {
        planned := planned + [batch.value];
      }
      NextCovered(tree, manifests, settings, names[..i], before, planned, batch.value);
    }
    assert names[..|names|] == names;
    return planned, None;
  }

  lemma StaysCovered(tree: Tree, manifests: References, settings: Settings, repository: string,
                     before: seq<Batch>, after: seq<Batch>)
    requires Covered(tree, manifests, settings, repository, before) && before <= after
    ensures Covered(tree, manifests, settings, repository, after)
  {
    var batch :| IsBatch(tree, manifests, settings, batch) && batch.repository == repository
                 && (batch in before || batch.versions == []);
    assert batch in before ==> batch in after;
  }

  ghost predicate Untouched(batches: seq<Batch>, repository: string) {
    forall batch | batch in batches :: batch.repository != repository
  }

  lemma StaysUntouched(before: Tree, middle: Tree, after: Tree, batches: seq<Batch>, i: nat)
    requires i < |batches|
    requires forall repository | Untouched(batches, repository) :: SameView(before, middle, repository)
    requires forall other | other != batches[i].repository :: SameView(middle, after, other)
    ensures forall repository | Untouched(batches, repository) :: SameView(before, after, repository)
  {
    forall repository | Untouched(batches, repository) ensures SameView(before, after, repository) {
      assert batches[i] in batches;
      assert SameView(before, middle, repository) && SameView(middle, after, repository);
    }
  }

  /** Every batch is at a stage of its order, and other repositories are as they were. */
  ghost predicate AtStages(before: Tree, after: Tree, batches: seq<Batch>) {
    && (forall j | 0 <= j < |batches| :: Reached(before, after, batches[j].repository, batches[j].versions))
    && (forall repository | Untouched(batches, repository) :: SameView(before, after, repository))
  }

  /** The first batches are carried out, the rest is not begun. */
  ghost predicate DoneUpTo(before: Tree, after: Tree, batches: seq<Batch>, i: nat) {
    && (forall j | 0 <= j < |batches| ::
          Stage(before, after, batches[j].repository, if j < i then Digests(batches[j].versions) else {}, None))
    && (forall repository | Untouched(batches, repository) :: SameView(before, after, repository))
  }

  lemma BatchStep(before: Tree, middle: Tree, after: Tree, batches: seq<Batch>, i: nat)
    requires i < |batches| && DoneUpTo(before, middle, batches, i)
    requires forall i, j | 0 <= i < j < |batches| :: batches[i].repository != batches[j].repository
    requires forall other | other != batches[i].repository :: SameView(middle, after, other)
    ensures Reached(middle, after, batches[i].repository, batches[i].versions) ==> AtStages(before, after, batches)
    ensures Stage(middle, after, batches[i].repository, Digests(batches[i].versions), None) ==>
              DoneUpTo(before, after, batches, i + 1)
  {
    StaysUntouched(before, middle, after, batches, i);
    forall j | 0 <= j < |batches|
      ensures Reached(middle, after, batches[i].repository, batches[i].versions) ==>
                Reached(before, after, batches[j].repository, batches[j].versions)
      ensures Stage(middle, after, batches[i].repository, Digests(batches[i].versions), None) ==>
                Stage(before, after, batches[j].repository, if j < i + 1 then Digests(batches[j].versions)
                      else {}, None)
    {
      if Reached(middle, after, batches[i].repository, batches[i].versions) {
        BatchReached(before, middle, after, batches, i, j);
      }
      if Stage(middle, after, batches[i].repository, Digests(batches[i].versions), None) {
        BatchStage(before, middle, after, batches, i, j);
      }
    }
  }

  method DeleteBatches(registry: Registry, container: string, batches: seq<Batch>)
      returns (deleted: nat, error: Option<RunError>)
    requires registry.Recorded()
    requires forall i, j | 0 <= i < j < |batches| :: batches[i].repository != batches[j].repository
    modifies registry
    ensures registry.Recorded() && old(registry.history) <= registry.history
    ensures forall k | |old(registry.history)| <= k < |registry.history| ::
              AtStages(old(registry.files), registry.history[k], batches)
    ensures batches == [] ==> registry.history == old(registry.history)
    ensures error.None? ==> DoneUpTo(old(registry.files), registry.files, batches, |batches|)
    ensures error.None? ==> deleted == CountOf(batches)
    ensures error.Some? ==> error.value.Unavailable?
    ensures error.Some? ==> exists n :: 0 <= n < |batches| && deleted == CountOf(batches[..n])
  {
    deleted := 0;
    for i := 0 to |batches|
      invariant deleted == CountOf(batches[..i])
      invariant registry.Recorded() && old(registry.history) <= registry.history
      invariant i == 0 ==> registry.history == old(registry.history)
      invariant forall k | |old(registry.history)| <= k < |registry.history| ::
                  AtStages(old(registry.files), registry.history[k], batches)
      invariant DoneUpTo(old(registry.files), registry.files, batches, i)
    {
      ghost var middle, steps := registry.files, |registry.history|;
      var stopped := DeleteInOrder(registry, container, batches[i].repository, batches[i].versions);
      forall k | steps <= k < |registry.history|
        ensures AtStages(old(registry.files), registry.history[k], batches)
      {
        BatchStep(old(registry.files), middle, registry.history[k], batches, i);
      }
      if stopped.Some? {
        error := Some(Unavailable(stopped.value));
        return;
      }
      BatchStep(old(registry.files), middle, registry.files, batches, i);
      assert batches[..i + 1][..i] == batches[..i];
      deleted := deleted + batches[i].count;
    }
    assert batches[..|batches|] == batches;
    error := None;
  }

  lemma FreshStart(before: Tree, middle: Tree, repository: string)
    requires Stage(before, middle, repository, {}, None)
    ensures SameView(before, middle, repository) && SameView(middle, before, repository)
  {
  }

  lemma BatchReached(before: Tree, middle: Tree, after: Tree, batches: seq<Batch>, i: nat, j: nat)
    requires i < |batches| && j < |batches|
    requires forall i, j | 0 <= i < j < |batches| :: batches[i].repository != batches[j].repository
    requires Stage(before, middle, batches[j].repository, if j < i then Digests(batches[j].versions) else {}, None)
    requires Reached(middle, after, batches[i].repository, batches[i].versions)
    requires forall other | other != batches[i].repository :: SameView(middle, after, other)
    ensures Reached(before, after, batches[j].repository, batches[j].versions)
  {
    var repository, order := batches[j].repository, batches[j].versions;
    if j == i {
      FreshStart(before, middle, repository);
      ReachedFrom(before, middle, after, repository, order);
    } else {
      assert order[..|order|] == order && order[..0] == [];
      assert StageOf(before, middle, repository, order, if j < i then |order| else 0, None);
      SameViewReached(before, middle, after, repository, order);
    }
  }

  lemma ReachedFrom(before: Tree, middle: Tree, after: Tree, repository: string, order: seq<RegistryVersion>)
    requires SameView(before, middle, repository) && Reached(middle, after, repository, order)
    ensures Reached(before, after, repository, order)
  {
    var n: nat, partial: Option<Digest> :| StageOf(middle, after, repository, order, n, partial);
    assert StageOf(before, after, repository, order, n, partial);
  }

  lemma BatchStage(before: Tree, middle: Tree, after: Tree, batches: seq<Batch>, i: nat, j: nat)
    requires i < |batches| && j < |batches|
    requires forall i, j | 0 <= i < j < |batches| :: batches[i].repository != batches[j].repository
    requires Stage(before, middle, batches[j].repository, if j < i then Digests(batches[j].versions) else {}, None)
    requires Stage(middle, after, batches[i].repository, Digests(batches[i].versions), None)
    requires forall other | other != batches[i].repository :: SameView(middle, after, other)
    ensures Stage(before, after, batches[j].repository, if j < i + 1 then Digests(batches[j].versions) else {}, None)
  {
    var repository := batches[j].repository;
    if j == i {
      FreshStart(before, middle, repository);
    } else {
      SameViewSameStage(before, middle, after, repository,
                        if j < i then Digests(batches[j].versions) else {}, None);
    }
  }

  /** Every batch at every tree it reaches is such a run of its repository. */
  lemma BatchIsRun(before: Tree, after: Tree, manifests: References, settings: Settings, batch: Batch)
      returns (run: Run)
    requires IsBatch(before, manifests, settings, batch) && Reached(before, after, batch.repository, batch.versions)
    ensures run.Valid(manifests) && run.before == before && run.after == after
    ensures run.request.policy == settings.For(batch.repository) && run.plan.deleteOrder == batch.versions
  {
    var request, plan :| Planned(before, manifests, settings, batch, request, plan);
    run := Run(before, after, request, plan);
  }

  /** In every repository the promises of the earlier tree hold at the later one, no
      tag newly names a missing revision, and no manifest a missing manifest. */
  ghost predicate Kept(before: Tree, after: Tree, manifests: References, settings: Settings) {
    && (forall repository, kept | Promises(before, manifests, settings.For(repository), kept) ::
          Promises(after, manifests, settings.For(repository), kept))
    && (forall repository | NoDanglingTag(before, repository) :: NoDanglingTag(after, repository))
    && (forall repository | ReferencesHeld(before, repository, manifests) ::
        ReferencesHeld(after, repository, manifests))
  }

  /** Whatever a run did up to a tree, planned or not, in each repository. */
  ghost predicate Ran(before: Tree, after: Tree, manifests: References, policy: Policy) {
    || SameView(before, after, policy.repository)
    || exists run: Run :: run.Valid(manifests) && run.before == before && run.after == after
        && run.request.policy == policy
  }

  lemma RanKeeps(before: Tree, after: Tree, manifests: References, policy: Policy)
    requires Ran(before, after, manifests, policy)
    ensures forall kept | Promises(before, manifests, policy, kept) :: Promises(after, manifests, policy, kept)
    ensures NoDanglingTag(before, policy.repository) ==> NoDanglingTag(after, policy.repository)
    ensures ReferencesHeld(before, policy.repository, manifests) ==> ReferencesHeld(after, policy.repository, manifests)
  {
    if SameView(before, after, policy.repository) {
      forall kept | Promises(before, manifests, policy, kept) ensures Promises(after, manifests, policy, kept) {
        SameViewSamePromise(before, after, manifests, policy, kept);
      }
      forall d ensures Present(after, policy.repository, d) <==> Present(before, policy.repository, d) {
        SameViewSamePresence(before, after, policy.repository, d);
      }
    } else {
      var run: Run :| run.Valid(manifests) && run.before == before && run.after == after
          && run.request.policy == policy;
      NothingDangles(before, after, manifests, run.request, run.plan);
      forall kept | Promises(before, manifests, policy, kept) ensures Promises(after, manifests, policy, kept) {
        RunKeepsPromise(manifests, run, kept);
      }
    }
  }

  lemma BatchesKeep(before: Tree, after: Tree, manifests: References, settings: Settings, batches: seq<Batch>)
    requires forall batch | batch in batches ::
               IsBatch(before, manifests, settings, batch) && Reached(before, after, batch.repository, batch.versions)
    requires forall repository | Untouched(batches, repository) :: SameView(before, after, repository)
    ensures Kept(before, after, manifests, settings)
  {
    forall repository ensures Ran(before, after, manifests, settings.For(repository)) {
      if !Untouched(batches, repository) {
        var batch :| batch in batches && batch.repository == repository;
        var run := BatchIsRun(before, after, manifests, settings, batch);
      }
    }
    forall repository, kept | Promises(before, manifests, settings.For(repository), kept)
      ensures Promises(after, manifests, settings.For(repository), kept)
    {
      RanKeeps(before, after, manifests, settings.For(repository));
    }
    forall repository
      ensures NoDanglingTag(before, repository) ==> NoDanglingTag(after, repository)
      ensures ReferencesHeld(before, repository, manifests) ==> ReferencesHeld(after, repository, manifests)
    {
      RanKeeps(before, after, manifests, settings.For(repository));
    }
  }

  /** The batch is what planning under the policy orders. */
  ghost predicate OrderedBy(tree: Tree, manifests: References, policy: Policy, batch: Batch) {
    exists request, plan ::
      && IsRequest(tree, manifests, request) && request.policy == policy && request.IsPlan(plan)
      && batch.versions == plan.deleteOrder && batch.count == plan.purgedVersions
  }

  /** The batch follows the keep count of its repository: its own setting, or else the
      global one; 0 keeps everything. */
  ghost predicate FollowsSetting(tree: Tree, manifests: References, settings: Settings, batch: Batch) {
    var own := batch.repository in settings.policies;
    var keep := if own then settings.policies[batch.repository] else settings.defaultKeep;
    && OrderedBy(tree, manifests, Policy(batch.repository, keep, settings.protected), batch)
    && (keep == 0 ==> batch.versions == [])
  }

  lemma BatchFollowsSetting(tree: Tree, manifests: References, settings: Settings, batch: Batch)
    requires IsBatch(tree, manifests, settings, batch)
    ensures FollowsSetting(tree, manifests, settings, batch)
  {
    var request, plan :| Planned(tree, manifests, settings, batch, request, plan);
    if request.policy.keep == 0 {
      KeepAllPurgesNothing(request, plan);
    }
  }

  lemma BatchesFollowSettings(tree: Tree, manifests: References, settings: Settings, batches: seq<Batch>)
    requires AllPlanned(tree, manifests, settings, batches)
    ensures forall batch | batch in batches :: batch.versions != [] && FollowsSetting(tree, manifests, settings, batch)
    ensures forall repository | repository in settings.policies && settings.policies[repository] == 0 ::
              Untouched(batches, repository)
  {
    forall batch | batch in batches
      ensures batch.versions != [] && FollowsSetting(tree, manifests, settings, batch)
    {
      BatchFollowsSetting(tree, manifests, settings, batch);
    }
  }

  lemma KeepAllPurgesNothing(request: Request, plan: RetentionPlan)
    requires request.policy.keep == 0 && request.IsPlan(plan)
    ensures plan.deleteOrder == []
  {
    ClosureIsClosed(request.references, request.Chosen());
    forall v | v in request.versions ensures v.digest in request.Chosen() {
      var i: nat :| i < |request.versions| && request.versions[i] == v;
      assert request.policy.Selects(request.versions, request.Excluded(), i);
    }
    NothingPurged(request);
  }

  /** A retention run: everything is planned before anything is deleted, and at
      every tree on the way each planned repository is at a stage of its batch, the
      others are as they were, and what the tree promised still holds. So it does
      after any number of runs that stop anywhere. */
  method RetainVersions(registry: Registry, container: string, settings: Settings, manifests: References)
      returns (deleted: nat, error: Option<RunError>, ghost batches: seq<Batch>)
    requires registry.Recorded()
    modifies registry
    ensures registry.Recorded() && old(registry.history) <= registry.history
    ensures forall i, j | 0 <= i < j < |batches| :: batches[i].repository != batches[j].repository
    ensures forall batch | batch in batches :: IsBatch(old(registry.files), manifests, settings, batch)
    ensures forall batch, k | batch in batches && |old(registry.history)| <= k < |registry.history| ::
              Reached(old(registry.files), registry.history[k], batch.repository, batch.versions)
    ensures forall repository, k | Untouched(batches, repository)
            && |old(registry.history)| <= k < |registry.history| ::
              SameView(old(registry.files), registry.history[k], repository)
    ensures forall batch | batch in batches ::
              batch.versions != [] && FollowsSetting(old(registry.files), manifests, settings, batch)
    ensures forall repository, k | repository in settings.policies && settings.policies[repository] == 0
                                   && |old(registry.history)| <= k < |registry.history| ::
              SameView(old(registry.files), registry.history[k], repository)
    ensures forall k | |old(registry.history)| <= k < |registry.history| ::
              Kept(old(registry.files), registry.history[k], manifests, settings)
    ensures batches == [] ==> registry.history == old(registry.history)
    ensures error.None? ==> forall batch | batch in batches ::
              Stage(old(registry.files), registry.files, batch.repository, Digests(batch.versions), None)
    ensures error.None? ==> forall repository, digest | Present(old(registry.files), repository, digest) ::
              Covered(old(registry.files), manifests, settings, repository, batches)
    ensures error.None? ==> deleted == CountOf(batches)
    ensures error.Some? && !error.value.Unavailable? ==>
              exists repository :: Unplannable(old(registry.files), manifests, settings.For(repository))
  {
    deleted, batches := 0, [];
    var rows := registry.ListRegistryContents(container);
    if rows.Err? {
      error := Some(Unavailable(rows.error));
      return;
    }
    var images := ListRegistryVersionImages(rows.value);
    ListedImages(registry.files, rows.value, images);
    assert ImagesOf(registry.files, images);
    var names := RepositoryNames(images);
    var planned, refusal := PlanAll(images, names, settings, manifests, registry.files);
    if refusal.Some? {
      error := refusal;
      return;
    }
    batches := planned;
    BatchesFollowSettings(registry.files, manifests, settings, batches);
    forall repository, digest | Present(registry.files, repository, digest)
      ensures Covered(registry.files, manifests, settings, repository, planned)
    {
      var row := PresentIsListed(registry.files, repository, digest);
      assert row in rows.value && ToImage(row) in images;
    }
    deleted, error := DeleteBatches(registry, container, planned);
    forall k | |old(registry.history)| <= k < |registry.history|
      ensures Kept(old(registry.files), registry.history[k], manifests, settings)
    {
      BatchesKeep(old(registry.files), registry.history[k], manifests, settings, batches);
    }
  }
}
