/** The manifest graph of one repository: which digests a manifest refers to, the
    digests reachable from a seed, and chains of references. */
module ManifestGraph {
  import opened Selection

  type References = map<Digest, seq<Digest>>

  /** A missing entry reads as no references, as indexing a Go map does. */
  function Refs(references: References, digest: Digest): seq<Digest> {
    if digest in references then references[digest] else []
  }

  ghost function ChildrenOf(references: References, parents: set<Digest>): set<Digest> {
    set parent, child | parent in parents && parent in references && child in references[parent] :: child
  }

  ghost function Children(references: References): set<Digest> {
    ChildrenOf(references, references.Keys)
  }

  ghost predicate Closed(references: References, digests: set<Digest>) {
    forall d, child | d in digests && child in Refs(references, d) :: child in digests
  }

  ghost function Universe(references: References, seed: set<Digest>): set<Digest> {
    seed + references.Keys + Children(references)
  }

  /** All digests reachable from the seed. */
  ghost function Closure(references: References, seed: set<Digest>): set<Digest>
    decreases |Universe(references, seed) - seed|
  {
    var next := seed + ChildrenOf(references, seed);
    if next == seed then seed else
      UniverseShrinks(references, seed, next);
      Closure(references, next)
  }

  lemma UniverseShrinks(references: References, seed: set<Digest>, next: set<Digest>)
    requires next == seed + ChildrenOf(references, seed) && next != seed
    ensures |Universe(references, next) - next| < |Universe(references, seed) - seed|
  {
    assert Universe(references, next) == Universe(references, seed);
    var rest := Universe(references, seed) - next;
    assert Universe(references, seed) - seed == rest + (next - seed);
  }

  lemma {:induction false} ClosureIsClosed(references: References, seed: set<Digest>)
    ensures seed <= Closure(references, seed) && Closed(references, Closure(references, seed))
    decreases |Universe(references, seed) - seed|
  {
    var next := seed + ChildrenOf(references, seed);
    if next == seed {
      forall d, child | d in seed && child in Refs(references, d) ensures child in seed {
        assert child in next;
      }
    } else {
      UniverseShrinks(references, seed, next);
      ClosureIsClosed(references, next);
    }
  }

  lemma {:induction false} ClosureBelow(references: References, seed: set<Digest>, bound: set<Digest>)
    requires seed <= bound && Closed(references, bound)
    ensures Closure(references, seed) <= bound
    decreases |Universe(references, seed) - seed|
  {
    var next := seed + ChildrenOf(references, seed);
    if next != seed {
      UniverseShrinks(references, seed, next);
      forall d, child | d in seed && d in references && child in references[d] ensures child in bound {
        assert child in Refs(references, d);
      }
      ClosureBelow(references, next, bound);
    }
  }

  /** The closure contains its seed, follows every reference, and is contained in
      every other set that does both. */
  lemma ClosureIsLeast(references: References, seed: set<Digest>)
    ensures seed <= Closure(references, seed) && Closed(references, Closure(references, seed))
    ensures forall bound | seed <= bound && Closed(references, bound) :: Closure(references, seed) <= bound
  {
    ClosureIsClosed(references, seed);
    forall bound | seed <= bound && Closed(references, bound) ensures Closure(references, seed) <= bound {
      ClosureBelow(references, seed, bound);
    }
  }

  /** A larger seed reaches at least as much, also over a graph that keeps the
      references of every digest reached both ways. */
  lemma ClosureMonotone(references: References, seed: set<Digest>, references': References, seed': set<Digest>)
    requires seed <= Closure(references', seed')
    requires forall d | d in Closure(references, seed) * Closure(references', seed') ::
               Refs(references, d) == Refs(references', d)
    ensures Closure(references, seed) <= Closure(references', seed')
  {
    ClosureIsClosed(references, seed);
    ClosureIsClosed(references', seed');
    var both := Closure(references, seed) * Closure(references', seed');
    forall d, child | d in both && child in Refs(references, d) ensures child in both {
      assert child in Refs(references', d);
    }
    ClosureBelow(references, seed, both);
  }

  /** A reached digest outside the seed is referenced by a reached digest. */
  lemma ReachedHasReachedParent(references: References, seed: set<Digest>, digest: Digest)
    requires digest in Closure(references, seed) && digest !in seed
    ensures exists parent :: parent in Closure(references, seed) && digest in Refs(references, parent)
  {
    ClosureIsClosed(references, seed);
    var others := Closure(references, seed) - {digest};
    if Closed(references, others) {
      ClosureBelow(references, seed, others);
      assert false;
    }
  }

  /** Whatever is reached belongs to the seed or is referenced. */
  lemma ReachedIsSeedOrChild(references: References, seed: set<Digest>)
    ensures Closure(references, seed) <= seed + Children(references)
  {
    ClosureBelow(references, seed, seed + Children(references));
  }

  /** A way along references from one digest to another. */
  ghost predicate IsPath(references: References, path: seq<Digest>, from: Digest, to: Digest) {
    && path != [] && path[0] == from && path[|path| - 1] == to
    && forall i | 0 <= i < |path| - 1 :: path[i + 1] in Refs(references, path[i])
  }

  ghost predicate Reachable(references: References, seed: set<Digest>, digest: Digest) {
    exists path, from :: from in seed && IsPath(references, path, from, digest)
  }

  lemma {:induction false} PathStaysInClosure(references: References, seed: set<Digest>, path: seq<Digest>,
                                              from: Digest,
                                              to: Digest)
    requires from in seed && IsPath(references, path, from, to)
    ensures to in Closure(references, seed)
    decreases path
  {
    ClosureIsClosed(references, seed);
    if |path| > 1 {
      var before := path[|path| - 2];
      PathStaysInClosure(references, seed, path[..|path| - 1], from, before);
      assert to in Refs(references, before);
    }
  }

  lemma PathGoesOn(references: References, seed: set<Digest>, digest: Digest, child: Digest)
    requires Reachable(references, seed, digest) && child in Refs(references, digest)
    ensures Reachable(references, seed, child)
  {
    var path, from :| from in seed && IsPath(references, path, from, digest);
    assert IsPath(references, path + [child], from, child);
  }

  /** The closure is what paths from the seed lead to. */
  lemma ReachedByPath(references: References, seed: set<Digest>, digest: Digest)
    ensures digest in Closure(references, seed) <==> Reachable(references, seed, digest)
  {
    forall path, from | from in seed && IsPath(references, path, from, digest)
      ensures digest in Closure(references, seed)
    {
      PathStaysInClosure(references, seed, path, from, digest);
    }
    var reachable := set d | d in Universe(references, seed) && Reachable(references, seed, d);
    forall d | d in seed ensures d in reachable {
      assert IsPath(references, [d], d, d);
    }
    forall d, child | d in reachable && child in Refs(references, d) ensures child in reachable {
      PathGoesOn(references, seed, d, child);
    }
    ClosureBelow(references, seed, reachable);
  }
}
