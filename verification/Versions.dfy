/** Grouping a repository's listing rows into versions
    (internal/application/versions.go). */
module Versions {
  import opened Basics
  import opened Ordering
  import opened Selection
  import opened VersionLists

  datatype RegistryImage = RegistryImage(repository: string, tag: string, digest: Digest, pushedAt: nat)

  predicate Belongs(image: RegistryImage, repository: string) {
    image.repository == repository && image.digest != ""
  }

  ghost function DigestsOf(images: seq<RegistryImage>, repository: string): set<Digest> {
    set image | image in images && Belongs(image, repository) :: image.digest
  }

  /** The tags of one digest, in row order. */
  function TagsOf(images: seq<RegistryImage>, repository: string, digest: Digest): seq<string> {
    if images == [] then [] else
      var last := images[|images| - 1];
      TagsOf(images[..|images| - 1], repository, digest)
      + if Belongs(last, repository) && last.digest == digest && last.tag != "" then [last.tag] else []
  }

  /** The newest push of one digest, zero when no time is known. */
  function LatestPush(images: seq<RegistryImage>, repository: string, digest: Digest): nat {
    if images == [] then 0 else
      var last := images[|images| - 1];
      var before := LatestPush(images[..|images| - 1], repository, digest);
      if Belongs(last, repository) && last.digest == digest && last.pushedAt > before then last.pushedAt else before
  }

  function VersionOf(images: seq<RegistryImage>, repository: string, digest: Digest): RegistryVersion {
    RegistryVersion(digest, Sort(StringLess, TagsOf(images, repository, digest)),
                    LatestPush(images, repository, digest))
  }

  /** Newest first, unknown times last, ties by digest. */
  predicate Before(left: RegistryVersion, right: RegistryVersion) {
    var leftZero, rightZero := left.pushedAt == 0, right.pushedAt == 0;
    if leftZero != rightZero then rightZero
    else if left.pushedAt != right.pushedAt then left.pushedAt > right.pushedAt
    else StringLess(left.digest, right.digest)
  }

  lemma BeforeIsStrictOrder()
    ensures StrictOrder(Before)
    ensures forall v: RegistryVersion, w: RegistryVersion :: v.digest != w.digest ==> Before(v, w) || Before(w, v)
  {
    StringLessIsStrictOrder();
    forall v: RegistryVersion, w: RegistryVersion | v.digest != w.digest ensures Before(v, w) || Before(w, v) {
      StringLessTotal(v.digest, w.digest);
    }
  }

  /** The versions of a repository: one per digest, each with all its tags and its
      newest push, in strict order. */
  ghost predicate IsGrouping(images: seq<RegistryImage>, repository: string, versions: seq<RegistryVersion>) {
    && StrictlyOrdered(Before, versions)
    && forall v :: v in versions <==>
         v.digest in DigestsOf(images, repository) && v == VersionOf(images, repository, v.digest)
  }

  /** What the rows read so far say about one digest; tags not yet sorted. */
  ghost function Gathered(images: seq<RegistryImage>, repository: string, digest: Digest): RegistryVersion {
    RegistryVersion(digest, TagsOf(images, repository, digest), LatestPush(images, repository, digest))
  }

  method GatherVersions(images: seq<RegistryImage>, repository: string)
      returns (byDigest: map<Digest, RegistryVersion>)
    ensures byDigest.Keys == DigestsOf(images, repository)
    ensures forall d | d in byDigest :: byDigest[d] == Gathered(images, repository, d)
  {
    byDigest := map[];
    for i := 0 to |images|
      invariant byDigest.Keys == DigestsOf(images[..i], repository)
      invariant forall d | d in byDigest :: byDigest[d] == Gathered(images[..i], repository, d)
    {
      var image := images[i];
      GatheredStep(images, repository, i);
      if image.repository != repository || image.digest == "" {
        continue;
      }
      var version := if image.digest in byDigest then byDigest[image.digest] else RegistryVersion(image.digest, [], 0);
      if image.digest !in byDigest {
        NothingOfDigest(images[..i], repository, image.digest);
      }
      if image.tag != "" {
        version := version.(tags := version.tags + [image.tag]);
      }
      if image.pushedAt > version.pushedAt {
        version := version.(pushedAt := image.pushedAt);
      }
      byDigest := byDigest[image.digest := version];
    }
    assert images[..|images|] == images;
  }

  lemma GatheredStep(images: seq<RegistryImage>, repository: string, i: nat)
    requires i < |images|
    ensures DigestsOf(images[..i + 1], repository) ==
            DigestsOf(images[..i], repository) + if Belongs(images[i], repository) then {images[i].digest} else {}
    ensures forall d | !Belongs(images[i], repository) || d != images[i].digest ::
              Gathered(images[..i + 1], repository, d) == Gathered(images[..i], repository, d)
    ensures var d := images[i].digest;
            Belongs(images[i], repository) ==>
              Gathered(images[..i + 1], repository, d) ==
              RegistryVersion(d,
                              TagsOf(images[..i], repository, d) + if images[i].tag != "" then [images[i].tag] else [],
                              if images[i].pushedAt > LatestPush(images[..i], repository, d) then images[i].pushedAt
                              else LatestPush(images[..i], repository, d))
  {
    assert images[..i + 1] == images[..i] + [images[i]] && images[..i + 1][..i] == images[..i];
  }

  function WithSortedTags(version: RegistryVersion): RegistryVersion {
    version.(tags := Sort(StringLess, version.tags))
  }

  /** Lists the gathered versions in the arbitrary order of the map. */
  method ListVersions(byDigest: map<Digest, RegistryVersion>) returns (versions: seq<RegistryVersion>)
    requires forall d | d in byDigest :: byDigest[d].digest == d
    ensures Digests(versions) == byDigest.Keys && Distinct(versions)
    ensures forall v | v in versions :: v.digest in byDigest && v == WithSortedTags(byDigest[v.digest])
  {
    var pending := byDigest.Keys;
    versions := [];
    while pending != {}
      invariant pending <= byDigest.Keys && Digests(versions) == byDigest.Keys - pending && Distinct(versions)
      invariant forall v | v in versions :: v.digest in byDigest && v == WithSortedTags(byDigest[v.digest])
    {
      var digest :| digest in pending;
      var version := WithSortedTags(byDigest[digest]);
      DigestsSnoc(versions, version);
      versions := versions + [version];
      pending := pending - {digest};
    }
  }

  method GroupRegistryVersions(images: seq<RegistryImage>, repository: string)
      returns (versions: seq<RegistryVersion>)
    ensures IsGrouping(images, repository, versions)
  {
    var byDigest := GatherVersions(images, repository);
    var grouped := ListVersions(byDigest);
    versions := Sort(Before, grouped);
    SortedGroupsAreStrict(images, repository, grouped, versions);
  }

  lemma DigestsSnoc(versions: seq<RegistryVersion>, version: RegistryVersion)
    ensures Digests(versions + [version]) == Digests(versions) + {version.digest}
    ensures forall v | v in versions :: v.digest in Digests(versions)
  {
    var longer := versions + [version];
    assert version in longer;
    forall v | v in versions ensures v in longer {
    }
  }

  lemma {:induction false} NothingOfDigest(images: seq<RegistryImage>, repository: string, digest: Digest)
    requires digest !in DigestsOf(images, repository)
    ensures TagsOf(images, repository, digest) == [] && LatestPush(images, repository, digest) == 0
  {
    if images != [] {
      var last := |images| - 1;
      assert images[last] in images;
      assert DigestsOf(images[..last], repository) <= DigestsOf(images, repository);
      NothingOfDigest(images[..last], repository, digest);
    }
  }

  lemma SortedGroupsAreStrict(images: seq<RegistryImage>, repository: string,
                              grouped: seq<RegistryVersion>, versions: seq<RegistryVersion>)
    requires Digests(grouped) == DigestsOf(images, repository) && Distinct(grouped)
    requires forall v | v in grouped :: v == VersionOf(images, repository, v.digest)
    requires versions == Sort(Before, grouped)
    ensures IsGrouping(images, repository, versions)
  {
    BeforeIsStrictOrder();
    SortOrdered(Before, grouped);
    Ordering.SameElements(grouped, versions);
    DistinctAsMultiset(grouped, versions);
    forall v: RegistryVersion | v.digest in DigestsOf(images, repository)
        && v == VersionOf(images, repository, v.digest)
      ensures v in versions
    {
      var w :| w in grouped && w.digest == v.digest;
    }
    forall v | v in versions ensures v.digest in DigestsOf(images, repository) {
      assert v.digest in Digests(grouped);
    }
  }

  lemma RepeatCountsTwice<T>(s: seq<T>, i: nat, j: nat)
    requires i < j < |s| && s[i] == s[j]
    ensures multiset(s)[s[i]] >= 2
  {
    assert s == s[..i] + [s[i]] + s[i + 1..j] + [s[j]] + s[j + 1..];
  }

  lemma DistinctAsMultiset(a: seq<RegistryVersion>, b: seq<RegistryVersion>)
    requires Distinct(a) && multiset(a) == multiset(b)
    ensures Distinct(b)
  {
    Ordering.SameElements(a, b);
    forall i, j | 0 <= i < j < |b| ensures b[i].digest != b[j].digest {
      assert b[i] in a && b[j] in a;
      DistinctCountsOnce(a, b[i]);
      if b[i].digest == b[j].digest {
        RepeatCountsTwice(b, i, j);
        assert false;
      }
    }
  }

  // ----- What a grouping is

  lemma {:induction false} StrictIsUnique(a: seq<RegistryVersion>, b: seq<RegistryVersion>)
    requires StrictlyOrdered(Before, a) && StrictlyOrdered(Before, b) && forall v :: v in a <==> v in b
    ensures a == b
    decreases |a|
  {
    BeforeIsStrictOrder();
    assert |b| == 0 || b[0] in b;
    assert |a| == 0 || a[0] in a;
    if a != [] {
      assert a[0] == b[0];
      assert a == [a[0]] + a[1..] && b == [b[0]] + b[1..];
      forall v ensures v in a[1..] <==> v in b[1..] {
        assert v in a[1..] <==> v in a && v != a[0];
        assert v in b[1..] <==> v in b && v != b[0];
      }
      StrictIsUnique(a[1..], b[1..]);
    }
  }

  lemma {:induction false} LatestPushIsMax(images: seq<RegistryImage>, repository: string, digest: Digest)
    ensures forall image | image in images && Belongs(image, repository) && image.digest == digest ::
              image.pushedAt <= LatestPush(images, repository, digest)
    ensures LatestPush(images, repository, digest) != 0 ==>
              exists image :: image in images && Belongs(image, repository) && image.digest == digest
                              && image.pushedAt == LatestPush(images, repository, digest)
  {
    if images != [] {
      var last := |images| - 1;
      LatestPushIsMax(images[..last], repository, digest);
      assert images == images[..last] + [images[last]];
      assert images[last] in images;
    }
  }

  /** The first n rows that name the tag on the digest. */
  ghost function RowsBelow(images: seq<RegistryImage>, repository: string, digest: Digest, tag: string,
                           n: nat): set<nat>
    requires n <= |images|
  {
    set i: nat | i < n && Belongs(images[i], repository) && images[i].digest == digest && images[i].tag == tag
  }

  ghost function RowsFor(images: seq<RegistryImage>, repository: string, digest: Digest, tag: string): set<nat> {
    RowsBelow(images, repository, digest, tag, |images|)
  }

  lemma {:induction false} TagsCountRows(images: seq<RegistryImage>, repository: string, digest: Digest, tag: string,
                                         n: nat)
    requires n <= |images| && tag != ""
    ensures multiset(TagsOf(images[..n], repository, digest))[tag] ==
            |RowsBelow(images, repository, digest, tag, n)|
  {
    if n == 0 {
      NothingRead(images, repository, digest, tag);
    } else {
      TagsCountRows(images, repository, digest, tag, n - 1);
      CountsGoOn(images, repository, digest, tag, n);
    }
  }

  lemma CountsGoOn(images: seq<RegistryImage>, repository: string, digest: Digest, tag: string, n: nat)
    requires 0 < n <= |images| && tag != ""
    requires multiset(TagsOf(images[..n - 1], repository, digest))[tag] ==
             |RowsBelow(images, repository, digest, tag, n - 1)|
    ensures multiset(TagsOf(images[..n], repository, digest))[tag] ==
            |RowsBelow(images, repository, digest, tag, n)|
  {
    AddedTag(images, repository, digest, tag, n);
    AddedRow(images, repository, digest, tag, n);
  }

  lemma NothingRead(images: seq<RegistryImage>, repository: string, digest: Digest, tag: string)
    ensures TagsOf(images[..0], repository, digest) == [] && RowsBelow(images, repository, digest, tag, 0) == {}
  {
  }

  lemma {:induction false} TagsAreNamed(images: seq<RegistryImage>, repository: string, digest: Digest)
    ensures "" !in TagsOf(images, repository, digest)
  {
    if images != [] {
      TagsAreNamed(images[..|images| - 1], repository, digest);
    }
  }

  lemma AddedRow(images: seq<RegistryImage>, repository: string, digest: Digest, tag: string, n: nat)
    requires 0 < n <= |images|
    ensures var last := images[n - 1];
            |RowsBelow(images, repository, digest, tag, n)| ==
            |RowsBelow(images, repository, digest, tag, n - 1)|
            + if Belongs(last, repository) && last.digest == digest && last.tag == tag then 1 else 0
  {
    RowsGrow(images, repository, digest, tag, n);
    assert n - 1 !in RowsBelow(images, repository, digest, tag, n - 1);
  }

  lemma RowsGrow(images: seq<RegistryImage>, repository: string, digest: Digest, tag: string, n: nat)
    requires 0 < n <= |images|
    ensures var last := images[n - 1];
            RowsBelow(images, repository, digest, tag, n) ==
            RowsBelow(images, repository, digest, tag, n - 1)
            + if Belongs(last, repository) && last.digest == digest && last.tag == tag then {n - 1} else {}
  {
  }

  lemma AddedTag(images: seq<RegistryImage>, repository: string, digest: Digest, tag: string, n: nat)
    requires 0 < n <= |images| && tag != ""
    ensures var last := images[n - 1];
            multiset(TagsOf(images[..n], repository, digest))[tag] ==
            multiset(TagsOf(images[..n - 1], repository, digest))[tag]
            + if Belongs(last, repository) && last.digest == digest && last.tag == tag then 1 else 0
  {
    assert images[..n][..n - 1] == images[..n - 1];
  }

  /** One version per digest with rows, newest first; each has exactly as many
      copies of a tag as rows name it on its digest, and the newest of its pushes. */
  lemma GroupingMeaning(images: seq<RegistryImage>, repository: string, versions: seq<RegistryVersion>)
    requires IsGrouping(images, repository, versions)
    ensures Distinct(versions)
    ensures Digests(versions) ==
            set image | image in images && image.repository == repository && image.digest != "" :: image.digest
    ensures forall i, j | 0 <= i < j < |versions| ::
              || versions[i].pushedAt > versions[j].pushedAt
              || (versions[i].pushedAt == versions[j].pushedAt && StringLess(versions[i].digest, versions[j].digest))
    ensures forall v, tag | v in versions ::
              multiset(v.tags)[tag] == if tag == "" then 0 else |RowsFor(images, repository, v.digest, tag)|
    ensures forall v | v in versions :: Ordered(StringLess, v.tags)
    ensures forall v, image | v in versions && image in images && Belongs(image, repository)
                              && image.digest == v.digest :: image.pushedAt <= v.pushedAt
    ensures forall v | v in versions && v.pushedAt != 0 ::
              exists image :: image in images && Belongs(image, repository)
                              && image.digest == v.digest && image.pushedAt == v.pushedAt
  {
    BeforeIsStrictOrder();
    StringLessIsStrictOrder();
    forall i, j | 0 <= i < j < |versions| ensures versions[i].digest != versions[j].digest {
      assert Before(versions[i], versions[j]) && versions[i] in versions && versions[j] in versions;
    }
    forall d | d in DigestsOf(images, repository) ensures d in Digests(versions) {
      assert VersionOf(images, repository, d) in versions;
    }
    forall v | v in versions
      ensures Ordered(StringLess, v.tags)
      ensures forall tag :: multiset(v.tags)[tag] ==
                            if tag == "" then 0 else |RowsFor(images, repository, v.digest, tag)|
    {
      SortOrdered(StringLess, TagsOf(images, repository, v.digest));
      forall tag ensures multiset(v.tags)[tag] ==
                         if tag == "" then 0 else |RowsFor(images, repository, v.digest, tag)|
      {
        assert images[..|images|] == images;
        TagsAreNamed(images, repository, v.digest);
        if tag != "" {
          TagsCountRows(images, repository, v.digest, tag, |images|);
        }
      }
    }
    forall v | v in versions
      ensures forall image | image in images && Belongs(image, repository) && image.digest == v.digest ::
                image.pushedAt <= v.pushedAt
      ensures v.pushedAt != 0 ==>
                exists image :: image in images && Belongs(image, repository)
                                && image.digest == v.digest && image.pushedAt == v.pushedAt
    {
      LatestPushIsMax(images, repository, v.digest);
    }
  }

  // ----- The order of the rows does not matter

  lemma {:induction false} TagsOfConcat(a: seq<RegistryImage>, b: seq<RegistryImage>, repository: string,
                                        digest: Digest)
    ensures TagsOf(a + b, repository, digest) == TagsOf(a, repository, digest) + TagsOf(b, repository, digest)
  {
    if b == [] {
      assert a + b == a;
    } else {
      var last := |b| - 1;
      TagsOfConcat(a, b[..last], repository, digest);
      assert (a + b)[..|a + b| - 1] == a + b[..last];
    }
  }

  /** Taking one row out takes its tag out. */
  lemma TagsWithout(before: seq<RegistryImage>, row: RegistryImage, after: seq<RegistryImage>,
                    repository: string, digest: Digest)
    ensures multiset(TagsOf(before + [row] + after, repository, digest)) ==
            multiset(TagsOf(before + after, repository, digest)) + multiset(TagsOf([row], repository, digest))
  {
    TagsOfConcat(before + [row], after, repository, digest);
    TagsOfConcat(before, [row], repository, digest);
    TagsOfConcat(before, after, repository, digest);
  }

  lemma RowOut(images: seq<RegistryImage>, repository: string, digest: Digest, k: nat)
      returns (rest: seq<RegistryImage>)
    requires k < |images|
    ensures multiset(rest) == multiset(images) - multiset{images[k]} && |rest| < |images|
    ensures multiset(TagsOf(images, repository, digest)) ==
            multiset(TagsOf(rest, repository, digest)) + multiset(TagsOf([images[k]], repository, digest))
  {
    rest := images[..k] + images[k + 1..];
    SplitAround(images, k);
    TagsWithout(images[..k], images[k], images[k + 1..], repository, digest);
  }

  lemma PositionOf(a: seq<RegistryImage>, b: seq<RegistryImage>) returns (k: nat)
    requires multiset(a) == multiset(b) && a != []
    ensures k < |b| && b[k] == a[0]
  {
    Ordering.SameElements(a, b);
    assert a[0] in a && a[0] in b;
    k :| 0 <= k < |b| && b[k] == a[0];
  }

  lemma {:induction false} TagsOfRearranged(a: seq<RegistryImage>, b: seq<RegistryImage>, repository: string,
                                            digest: Digest)
    requires multiset(a) == multiset(b)
    ensures multiset(TagsOf(a, repository, digest)) == multiset(TagsOf(b, repository, digest))
    decreases |a|
  {
    if a != [] {
      var k := PositionOf(a, b);
      var restA := RowOut(a, repository, digest, 0);
      var restB := RowOut(b, repository, digest, k);
      TagsOfRearranged(restA, restB, repository, digest);
    } else {
      Ordering.SameElements(a, b);
    }
  }

  lemma SplitAround<T>(s: seq<T>, k: nat)
    requires k < |s|
    ensures s == s[..k] + [s[k]] + s[k + 1..]
    ensures multiset(s) == multiset(s[..k] + s[k + 1..]) + multiset{s[k]}
  {
    assert s == s[..k] + [s[k]] + s[k + 1..];
  }

  lemma SameTagsSameOrder(a: seq<string>, b: seq<string>)
    requires multiset(a) == multiset(b)
    ensures Sort(StringLess, a) == Sort(StringLess, b)
  {
    StringLessIsStrictOrder();
    SortOrdered(StringLess, a);
    SortOrdered(StringLess, b);
    forall x, y | !StringLess(x, y) && !StringLess(y, x) ensures x == y {
      StringLessTotal(x, y);
    }
    OrderedIsUnique(StringLess, Sort(StringLess, a), Sort(StringLess, b));
  }

  lemma LatestPushRearranged(a: seq<RegistryImage>, b: seq<RegistryImage>, repository: string, digest: Digest)
    requires forall image :: image in a <==> image in b
    ensures LatestPush(a, repository, digest) == LatestPush(b, repository, digest)
  {
    LatestPushIsMax(a, repository, digest);
    LatestPushIsMax(b, repository, digest);
  }

  /** Every arrangement of the same rows groups into the same versions. */
  lemma GroupingIgnoresRowOrder(a: seq<RegistryImage>, b: seq<RegistryImage>, repository: string,
                                versionsA: seq<RegistryVersion>, versionsB: seq<RegistryVersion>)
    requires multiset(a) == multiset(b)
    requires IsGrouping(a, repository, versionsA) && IsGrouping(b, repository, versionsB)
    ensures versionsA == versionsB
  {
    Ordering.SameElements(a, b);
    assert DigestsOf(a, repository) == DigestsOf(b, repository);
    forall d ensures VersionOf(a, repository, d) == VersionOf(b, repository, d) {
      TagsOfRearranged(a, b, repository, d);
      SameTagsSameOrder(TagsOf(a, repository, d), TagsOf(b, repository, d));
      LatestPushRearranged(a, b, repository, d);
    }
    StrictIsUnique(versionsA, versionsB);
  }

  // ----- Looking a tag up

  method DigestForTag(versions: seq<RegistryVersion>, tag: string) returns (digest: Digest)
    ensures (forall v | v in versions :: tag !in v.tags) ==> digest == ""
    ensures (exists v :: v in versions && tag in v.tags) ==>
              exists i :: 0 <= i < |versions| && tag in versions[i].tags && digest == versions[i].digest
                          && forall k | 0 <= k < i :: tag !in versions[k].tags
  {
    for i := 0 to |versions|
      invariant forall k | 0 <= k < i :: tag !in versions[k].tags
    {
      for j := 0 to |versions[i].tags|
        invariant tag !in versions[i].tags[..j]
      {
        if versions[i].tags[j] == tag {
          return versions[i].digest;
        }
      }
    }
    return "";
  }

  ghost predicate NamedBy(images: seq<RegistryImage>, repository: string, tag: string, digest: Digest) {
    exists image :: image in images && Belongs(image, repository) && image.digest == digest && image.tag == tag
  }

  lemma TagIffNamed(images: seq<RegistryImage>, repository: string, versions: seq<RegistryVersion>,
                    v: RegistryVersion, tag: string)
    requires IsGrouping(images, repository, versions) && v in versions
    ensures tag in v.tags <==> tag != "" && NamedBy(images, repository, tag, v.digest)
  {
    var tags := TagsOf(images, repository, v.digest);
    Ordering.SameElements(tags, v.tags);
    TagsOfIffNamed(images, repository, v.digest, tag);
  }

  lemma {:induction false} TagsOfIffNamed(images: seq<RegistryImage>, repository: string, digest: Digest, tag: string)
    ensures tag in TagsOf(images, repository, digest) <==> tag != "" && NamedBy(images, repository, tag, digest)
  {
    if images != [] {
      var last := |images| - 1;
      TagsOfIffNamed(images[..last], repository, digest, tag);
      assert images == images[..last] + [images[last]];
      assert forall image :: image in images <==> image in images[..last] || image == images[last];
    }
  }

  /** The rows put the tag of the repository on at most one digest. */
  ghost predicate OneDigest(images: seq<RegistryImage>, repository: string, tag: string) {
    forall d, d' | NamedBy(images, repository, tag, d) && NamedBy(images, repository, tag, d') :: d == d'
  }

  /** Looking a tag up among the grouped versions finds a digest that the rows put it
      on, so exactly that one where there is only one. */
  method LookUpTag(images: seq<RegistryImage>, repository: string, tag: string) returns (digest: Digest)
    ensures tag != "" && (exists d :: NamedBy(images, repository, tag, d)) ==> NamedBy(images, repository, tag, digest)
    ensures tag != "" && OneDigest(images, repository, tag) ==>
              forall d | NamedBy(images, repository, tag, d) :: digest == d
    ensures tag == "" || (forall d :: !NamedBy(images, repository, tag, d)) ==> digest == ""
  {
    var versions := GroupRegistryVersions(images, repository);
    digest := DigestForTag(versions, tag);
    forall v | v in versions ensures tag in v.tags <==> tag != "" && NamedBy(images, repository, tag, v.digest) {
      TagIffNamed(images, repository, versions, v, tag);
    }
    forall d | tag != "" && NamedBy(images, repository, tag, d) ensures NamedBy(images, repository, tag, digest) {
      var image :| image in images && Belongs(image, repository) && image.digest == d && image.tag == tag;
      assert d in DigestsOf(images, repository);
      var v := VersionOf(images, repository, d);
      assert v in versions && tag in v.tags;
    }
  }

  // ----- The advisory preview

  method PreviewRegistryRetention(images: seq<RegistryImage>, policy: Policy)
      returns (r: Result<(seq<RegistryVersion>, seq<RegistryVersion>), RetentionError>)
    ensures r.Err? <==> !policy.Legal()
    ensures r.Ok? ==> exists versions | IsGrouping(images, policy.repository, versions) ::
              var selected := policy.Selected(versions, {});
              r.value == (Restrict(versions, selected), Drop(versions, selected))
  {
    var versions := GroupRegistryVersions(images, policy.repository);
    var selected := SelectRegistryVersions(versions, policy, {});
    if selected.Err? {
      return Err(selected.error);
    }
    var kept, purged := SplitVersions(versions, selected.value);
    return Ok((kept, purged));
  }

  method SplitVersions(versions: seq<RegistryVersion>, selected: set<Digest>)
      returns (kept: seq<RegistryVersion>, purged: seq<RegistryVersion>)
    ensures kept == Restrict(versions, selected) && purged == Drop(versions, selected)
  {
    kept, purged := [], [];
    for i := 0 to |versions|
      invariant kept == Restrict(versions[..i], selected) && purged == Drop(versions[..i], selected)
    {
      assert versions[..i + 1][..i] == versions[..i];
      if versions[i].digest in selected {
        kept := kept + [versions[i]];
        continue;
      }
      purged := purged + [versions[i]];
    }
    assert versions[..|versions|] == versions;
  }
}
