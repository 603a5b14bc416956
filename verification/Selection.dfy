/** Registry versions and the quota rule that chooses which of them a retention
    run keeps (internal/application/registry_retention.go, registry.go). */
module Selection {
  import opened Basics

  type Digest = string

  /** Push times count from 1; 0 is the zero time of a version whose revision
      time could not be read. */
  datatype RegistryVersion = RegistryVersion(digest: Digest, tags: seq<string>, pushedAt: nat)

  datatype RetentionError = KeepInvalid | GraphIncomplete | GraphCyclic

  const MAX_REGISTRY_KEEP_COUNT := 100

  function RegistryImageKey(repository: string, tag: string): string {
    repository + "\0" + tag
  }

  function EffectiveRegistryKeep(defaultKeep: int, policies: map<string, int>, repository: string): int {
    if repository in policies then policies[repository] else defaultKeep
  }

  /** The keep setting of one repository with the keys of deployed references. */
  datatype Policy = Policy(repository: string, keep: int, protected: set<string>) {

    predicate Legal() {
      0 <= keep <= MAX_REGISTRY_KEEP_COUNT
    }

    predicate Protects(version: RegistryVersion) {
      || RegistryImageKey(repository, version.digest) in protected
      || exists tag | tag in version.tags :: RegistryImageKey(repository, tag) in protected
    }

    /** The version competes for the keep quota. */
    predicate TakesSlot(version: RegistryVersion, excluded: set<Digest>) {
      version.digest !in excluded && version.pushedAt != 0 && !Protects(version)
    }

    /** How many of the versions compete for the quota. */
    function Slots(versions: seq<RegistryVersion>, excluded: set<Digest>): nat {
      if versions == [] then 0 else
        var last := |versions| - 1;
        Slots(versions[..last], excluded) + if TakesSlot(versions[last], excluded) then 1 else 0
    }

    /** Version i is chosen by the shared policy. */
    predicate Selects(versions: seq<RegistryVersion>, excluded: set<Digest>, i: nat)
      requires i < |versions|
    {
      || keep == 0
      || (&& versions[i].digest !in excluded
          && (TakesSlot(versions[i], excluded) ==> Slots(versions[..i], excluded) < keep))
    }

    ghost function Selected(versions: seq<RegistryVersion>, excluded: set<Digest>): set<Digest> {
      SelectedBelow(versions, excluded, |versions|)
    }

    ghost function SelectedBelow(versions: seq<RegistryVersion>, excluded: set<Digest>, n: nat): set<Digest>
      requires n <= |versions|
    {
      set i | 0 <= i < n && Selects(versions, excluded, i) :: versions[i].digest
    }

    /** The positions below n that compete for the quota and are chosen. */
    ghost function SlotWinners(versions: seq<RegistryVersion>, excluded: set<Digest>, n: nat): set<nat>
      requires n <= |versions|
    {
      set i: nat | i < n && TakesSlot(versions[i], excluded) && Selects(versions, excluded, i)
    }

    /** At least as much is kept under p: 0 is the largest keep count. */
    predicate NoLooserThan(p: Policy) {
      && p.repository == repository
      && (p.keep == 0 || 0 != keep <= p.keep)
      && protected <= p.protected
    }
  }

  // ----- The rule in terms of the keys of deployed images

  /** The digest or a tag of the version has its key among the protected ones. */
  ghost predicate HasKey(repository: string, protected: set<string>, version: RegistryVersion) {
    || repository + "\0" + version.digest in protected
    || exists tag :: tag in version.tags && repository + "\0" + tag in protected
  }

  /** Where the versions stand that have no key, have a time and are not excluded. */
  ghost function Unprotected(policy: Policy, versions: seq<RegistryVersion>, excluded: set<Digest>, n: nat): set<nat>
    requires n <= |versions|
  {
    set i: nat | i < n && IsUnprotected(policy, versions[i], excluded)
  }

  ghost predicate IsUnprotected(policy: Policy, version: RegistryVersion, excluded: set<Digest>) {
    && version.digest !in excluded && version.pushedAt != 0
    && !HasKey(policy.repository, policy.protected, version)
  }

  /** Keep 0 keeps all. Otherwise nothing excluded is kept, everything with a key or
      without a time is, and of the rest the first ones. */
  ghost predicate Keeps(policy: Policy, versions: seq<RegistryVersion>, excluded: set<Digest>, i: nat)
    requires i < |versions|
  {
    || policy.keep == 0
    || (&& versions[i].digest !in excluded
        && (|| versions[i].pushedAt == 0
            || HasKey(policy.repository, policy.protected, versions[i])
            || |Unprotected(policy, versions, excluded, i)| < policy.keep))
  }

  ghost function Kept(policy: Policy, versions: seq<RegistryVersion>, excluded: set<Digest>): set<Digest> {
    set i: nat | i < |versions| && Keeps(policy, versions, excluded, i) :: versions[i].digest
  }

  lemma HasKeyIffProtected(policy: Policy, version: RegistryVersion)
    ensures HasKey(policy.repository, policy.protected, version) <==> policy.Protects(version)
  {
  }

  lemma {:induction false} SlotsAreUnprotected(policy: Policy, versions: seq<RegistryVersion>, excluded: set<Digest>,
                                               n: nat)
    requires n <= |versions|
    ensures policy.Slots(versions[..n], excluded) == |Unprotected(policy, versions, excluded, n)|
  {
    if n > 0 {
      SlotsAreUnprotected(policy, versions, excluded, n - 1);
      SlotsOfNext(policy, versions, excluded, n - 1);
      HasKeyIffProtected(policy, versions[n - 1]);
      UnprotectedGrow(policy, versions, excluded, n - 1);
    }
  }

  lemma UnprotectedGrow(policy: Policy, versions: seq<RegistryVersion>, excluded: set<Digest>, n: nat)
    requires n < |versions|
    ensures |Unprotected(policy, versions, excluded, n + 1)| ==
            |Unprotected(policy, versions, excluded, n)|
            + if IsUnprotected(policy, versions[n], excluded) then 1 else 0
  {
    OneMoreUnprotected(policy, versions, excluded, n);
    assert n !in Unprotected(policy, versions, excluded, n);
  }

  lemma OneMoreUnprotected(policy: Policy, versions: seq<RegistryVersion>, excluded: set<Digest>, n: nat)
    requires n < |versions|
    ensures Unprotected(policy, versions, excluded, n + 1) ==
            Unprotected(policy, versions, excluded, n)
            + if IsUnprotected(policy, versions[n], excluded) then {n} else {}
  {
  }

  lemma SelectsIffKeeps(policy: Policy, versions: seq<RegistryVersion>, excluded: set<Digest>, i: nat)
    requires i < |versions|
    ensures policy.Selects(versions, excluded, i) <==> Keeps(policy, versions, excluded, i)
  {
    SlotsAreUnprotected(policy, versions, excluded, i);
    HasKeyIffProtected(policy, versions[i]);
  }

  lemma SelectedAreKept(policy: Policy, versions: seq<RegistryVersion>, excluded: set<Digest>)
    ensures policy.Selected(versions, excluded) == Kept(policy, versions, excluded)
  {
    forall i: nat | i < |versions|
      ensures policy.Selects(versions, excluded, i) <==> Keeps(policy, versions, excluded, i)
    {
      SelectsIffKeeps(policy, versions, excluded, i);
    }
  }

  lemma KeysAreKept(policy: Policy, versions: seq<RegistryVersion>, excluded: set<Digest>)
    ensures forall v, name | v in versions && v.digest !in excluded && (name == v.digest || name in v.tags)
                             && policy.repository + "\0" + name in policy.protected ::
              v.digest in policy.Selected(versions, excluded)
  {
    forall v, name | v in versions && v.digest !in excluded && (name == v.digest || name in v.tags)
                     && policy.repository + "\0" + name in policy.protected
      ensures v.digest in policy.Selected(versions, excluded)
    {
      var i: nat :| i < |versions| && versions[i] == v;
      SelectsIffKeeps(policy, versions, excluded, i);
    }
  }

  // ----- Selecting

  method RegistryVersionProtected(policy: Policy, version: RegistryVersion) returns (protected: bool)
    ensures protected <==> policy.Protects(version)
    ensures protected <==> HasKey(policy.repository, policy.protected, version)
  {
    HasKeyIffProtected(policy, version);
    if RegistryImageKey(policy.repository, version.digest) in policy.protected {
      return true;
    }
    for i := 0 to |version.tags|
      invariant forall k | 0 <= k < i :: RegistryImageKey(policy.repository, version.tags[k]) !in policy.protected
    {
      if RegistryImageKey(policy.repository, version.tags[i]) in policy.protected {
        return true;
      }
    }
    return false;
  }

  method SelectRegistryVersions(versions: seq<RegistryVersion>, policy: Policy, excluded: set<Digest>)
      returns (r: Result<set<Digest>, RetentionError>)
    ensures r == if policy.Legal() then Ok(policy.Selected(versions, excluded)) else Err(KeepInvalid)
    ensures r.Ok? <==> 0 <= policy.keep <= 100
    ensures r.Ok? ==> forall v, name | v in versions && v.digest !in excluded && (name == v.digest || name in v.tags)
                                       && policy.repository + "\0" + name in policy.protected ::
              v.digest in r.value
    ensures r.Ok? ==> r.value == Kept(policy, versions, excluded)
  {
    SelectedAreKept(policy, versions, excluded);
    KeysAreKept(policy, versions, excluded);
    if policy.keep < 0 || policy.keep > MAX_REGISTRY_KEEP_COUNT {
      return Err(KeepInvalid);
    }
    var keepSet: set<Digest> := {};
    if policy.keep == 0 {
      for i := 0 to |versions|
        invariant keepSet == policy.SelectedBelow(versions, excluded, i)
      {
        keepSet := keepSet + {versions[i].digest};
      }
      return Ok(keepSet);
    }
    var count := 0;
    for i := 0 to |versions|
      invariant keepSet == policy.SelectedBelow(versions, excluded, i)
      invariant count == var slots := policy.Slots(versions[..i], excluded);
                         if slots <= policy.keep then slots else policy.keep
    {
      assert versions[..i + 1][..i] == versions[..i];
      if versions[i].digest in excluded {
        continue;
      }
      var protected := RegistryVersionProtected(policy, versions[i]);
      if versions[i].pushedAt == 0 || protected {
        keepSet := keepSet + {versions[i].digest};
        continue;
      }
      if count < policy.keep {
        keepSet := keepSet + {versions[i].digest};
        count := count + 1;
      }
    }
    return Ok(keepSet);
  }

  /** Among the versions competing for the quota the chosen ones come first in
      the listing and fill the quota exactly; a version outside the competition
      is chosen whenever it is not excluded. */
  lemma SelectionFillsQuota(policy: Policy, versions: seq<RegistryVersion>, excluded: set<Digest>)
    requires 0 < policy.keep
    ensures |policy.SlotWinners(versions, excluded, |versions|)| ==
            if policy.Slots(versions, excluded) < policy.keep then policy.Slots(versions, excluded) else policy.keep
    ensures forall i, j | 0 <= i < j < |versions| && policy.TakesSlot(versions[i], excluded)
                          && policy.TakesSlot(versions[j], excluded) && policy.Selects(versions, excluded, j) ::
              policy.Selects(versions, excluded, i)
    ensures forall i | 0 <= i < |versions| && !policy.TakesSlot(versions[i], excluded) ::
              policy.Selects(versions, excluded, i) <==> versions[i].digest !in excluded
  {
    forall i, j | 0 <= i < j < |versions| && policy.TakesSlot(versions[i], excluded)
                  && policy.TakesSlot(versions[j], excluded) && policy.Selects(versions, excluded, j)
      ensures policy.Selects(versions, excluded, i)
    {
      SlotsMonotone(policy, versions, excluded, i, j);
    }
    QuotaCount(policy, versions, excluded, |versions|);
    assert versions[..|versions|] == versions;
  }

  lemma {:induction false} SlotsMonotone(policy: Policy, versions: seq<RegistryVersion>, excluded: set<Digest>,
                                         i: nat, j: nat)
    requires i <= j <= |versions|
    ensures policy.Slots(versions[..i], excluded) <= policy.Slots(versions[..j], excluded)
  {
    if i < j {
      SlotsMonotone(policy, versions, excluded, i, j - 1);
      assert versions[..j][..j - 1] == versions[..j - 1];
    }
  }

  lemma {:induction false} QuotaCount(policy: Policy, versions: seq<RegistryVersion>, excluded: set<Digest>, n: nat)
    requires 0 < policy.keep && n <= |versions|
    ensures var slots := policy.Slots(versions[..n], excluded);
            |policy.SlotWinners(versions, excluded, n)| == if slots < policy.keep then slots else policy.keep
  {
    if n > 0 {
      QuotaCount(policy, versions, excluded, n - 1);
      SlotsOfNext(policy, versions, excluded, n - 1);
      WinnersOfNext(policy, versions, excluded, n - 1);
    }
  }

  lemma SlotsOfNext(policy: Policy, versions: seq<RegistryVersion>, excluded: set<Digest>, n: nat)
    requires n < |versions|
    ensures policy.Slots(versions[..n + 1], excluded) ==
            policy.Slots(versions[..n], excluded) + if policy.TakesSlot(versions[n], excluded) then 1 else 0
  {
    assert versions[..n + 1][..n] == versions[..n];
  }

  lemma WinnersOfNext(policy: Policy, versions: seq<RegistryVersion>, excluded: set<Digest>, n: nat)
    requires 0 < policy.keep && n < |versions|
    ensures |policy.SlotWinners(versions, excluded, n + 1)| ==
            |policy.SlotWinners(versions, excluded, n)|
            + if policy.TakesSlot(versions[n], excluded) && policy.Selects(versions, excluded, n) then 1 else 0
  {
    WinnersGrow(policy, versions, excluded, n);
    assert n !in policy.SlotWinners(versions, excluded, n);
  }

  lemma WinnersGrow(policy: Policy, versions: seq<RegistryVersion>, excluded: set<Digest>, n: nat)
    requires n < |versions|
    ensures policy.SlotWinners(versions, excluded, n + 1) ==
            policy.SlotWinners(versions, excluded, n)
            + if policy.TakesSlot(versions[n], excluded) && policy.Selects(versions, excluded, n) then {n} else {}
  {
  }

  /** A version that is not excluded stays chosen when the keep count grows, when
      more is protected, and when more of the other versions are excluded. */
  lemma SelectionMonotone(p: Policy, p': Policy, versions: seq<RegistryVersion>,
                          excluded: set<Digest>, excluded': set<Digest>, i: nat)
    requires i < |versions| && p.NoLooserThan(p') && excluded <= excluded'
    requires p.Selects(versions, excluded, i) && versions[i].digest !in excluded'
    ensures p'.Selects(versions, excluded', i)
  {
    FewerSlots(p, p', versions[..i], excluded, excluded');
    assert p'.TakesSlot(versions[i], excluded') ==> p.TakesSlot(versions[i], excluded);
  }

  lemma {:induction false} FewerSlots(p: Policy, p': Policy, versions: seq<RegistryVersion>,
                                      excluded: set<Digest>, excluded': set<Digest>)
    requires p.NoLooserThan(p') && excluded <= excluded'
    ensures p'.Slots(versions, excluded') <= p.Slots(versions, excluded)
  {
    if versions != [] {
      var last := |versions| - 1;
      FewerSlots(p, p', versions[..last], excluded, excluded');
      assert p'.TakesSlot(versions[last], excluded') ==> p.TakesSlot(versions[last], excluded);
    }
  }
}
