/** Lists of registry versions by digest. */
module VersionLists {
  import opened Selection

  ghost function Digests(versions: seq<RegistryVersion>): set<Digest> {
    set v | v in versions :: v.digest
  }

  ghost predicate Distinct(versions: seq<RegistryVersion>) {
    forall i, j | 0 <= i < j < |versions| :: versions[i].digest != versions[j].digest
  }

  /** The versions whose digest is in the set, in listing order. */
  function Restrict(versions: seq<RegistryVersion>, digests: set<Digest>): seq<RegistryVersion> {
    if versions == [] then [] else
      var last := |versions| - 1;
      Restrict(versions[..last], digests) + if versions[last].digest in digests then [versions[last]] else []
  }

  /** The versions whose digest is not in the set, in listing order. */
  function Drop(versions: seq<RegistryVersion>, digests: set<Digest>): seq<RegistryVersion> {
    if versions == [] then [] else
      var last := |versions| - 1;
      Drop(versions[..last], digests) + if versions[last].digest in digests then [] else [versions[last]]
  }

  lemma SplitOfNext(versions: seq<RegistryVersion>, digests: set<Digest>, i: nat)
    requires i < |versions|
    ensures Restrict(versions[..i + 1], digests) ==
            Restrict(versions[..i], digests) + if versions[i].digest in digests then [versions[i]] else []
    ensures Drop(versions[..i + 1], digests) ==
            Drop(versions[..i], digests) + if versions[i].digest in digests then [] else [versions[i]]
  {
    assert versions[..i + 1][..i] == versions[..i];
  }

  lemma {:induction false} RestrictDigests(versions: seq<RegistryVersion>, digests: set<Digest>)
    ensures forall v :: v in Restrict(versions, digests) <==> v in versions && v.digest in digests
    ensures forall v :: v in Drop(versions, digests) <==> v in versions && v.digest !in digests
  {
    if versions != [] {
      RestrictDigests(versions[..|versions| - 1], digests);
      assert versions == versions[..|versions| - 1] + [versions[|versions| - 1]];
    }
  }

  lemma SameDigestSameVersion(versions: seq<RegistryVersion>, v: RegistryVersion, w: RegistryVersion)
    requires Distinct(versions) && v in versions && w in versions && v.digest == w.digest
    ensures v == w
  {
  }

  lemma {:induction false} DistinctCountsOnce(versions: seq<RegistryVersion>, v: RegistryVersion)
    requires Distinct(versions)
    ensures multiset(versions)[v] == if v in versions then 1 else 0
  {
    if versions != [] {
      var last := |versions| - 1;
      DistinctCountsOnce(versions[..last], v);
      assert versions == versions[..last] + [versions[last]];
    }
  }

  lemma SameVersions(a: seq<RegistryVersion>, b: seq<RegistryVersion>)
    requires Distinct(a) && Distinct(b) && forall v :: v in a <==> v in b
    ensures multiset(a) == multiset(b)
  {
    forall v ensures multiset(a)[v] == multiset(b)[v] {
      DistinctCountsOnce(a, v);
      DistinctCountsOnce(b, v);
    }
  }

  lemma {:induction false} RestrictAndDrop(versions: seq<RegistryVersion>, digests: set<Digest>)
    ensures multiset(Restrict(versions, digests)) + multiset(Drop(versions, digests)) == multiset(versions)
  {
    if versions != [] {
      var last := |versions| - 1;
      RestrictAndDrop(versions[..last], digests);
      assert versions == versions[..last] + [versions[last]];
      MultisetSnoc(versions[..last], versions[last]);
      if versions[last].digest in digests {
        MultisetSnoc(Restrict(versions[..last], digests), versions[last]);
        assert Drop(versions, digests) == Drop(versions[..last], digests);
      } else {
        MultisetSnoc(Drop(versions[..last], digests), versions[last]);
        assert Restrict(versions, digests) == Restrict(versions[..last], digests);
      }
    }
  }

  lemma MultisetSnoc(versions: seq<RegistryVersion>, version: RegistryVersion)
    ensures multiset(versions + [version]) == multiset(versions) + multiset{version}
    ensures versions + [] == versions
  {
  }

  lemma {:induction false} DropDistinct(versions: seq<RegistryVersion>, digests: set<Digest>)
    requires Distinct(versions)
    ensures Distinct(Drop(versions, digests))
  {
    if versions != [] {
      var last := |versions| - 1;
      DropDistinct(versions[..last], digests);
      RestrictDigests(versions[..last], digests);
    }
  }
}
