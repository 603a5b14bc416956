/** The login limiter: two fixed-window counters per attempt in one bounded table
    (internal/auth/local.go). */
module LoginLimiter {
  import opened Basics

  datatype Attempts = Attempts(count: nat, expires: int)

  type Entries = map<string, Attempts>

  /** One minute, in nanoseconds. */
  const MINUTE := 60_000_000_000
  const USER_LIMIT := 5
  const ADDRESS_LIMIT := 20
  const MAX_ENTRIES := 4096

  function UserKey(username: string): string {
    "user:" + username
  }

  function AddressKey(address: string): string {
    "ip:" + address
  }

  lemma KeysDiffer(username: string, address: string)
    ensures UserKey(username) != AddressKey(address)
  {
    assert UserKey(username)[0] == 'u' && AddressKey(address)[0] == 'i';
  }

  // ----- One attempt

  function Live(entries: Entries, now: int): Entries {
    map key | key in entries && now < entries[key].expires :: entries[key]
  }

  function CountOf(entries: Entries, key: string): nat {
    if key in entries then entries[key].count else 0
  }

  function Missing(entries: Entries, key: string): nat {
    if key in entries then 0 else 1
  }

  predicate Allows(live: Entries, userKey: string, addressKey: string) {
    && CountOf(live, userKey) < USER_LIMIT
    && CountOf(live, addressKey) < ADDRESS_LIMIT
    && |live| + Missing(live, userKey) + Missing(live, addressKey) <= MAX_ENTRIES
  }

  function Bump(entries: Entries, key: string, now: int): Entries {
    entries[key := if CountOf(entries, key) == 0 then Attempts(1, now + MINUTE)
                   else Attempts(entries[key].count + 1, entries[key].expires)]
  }

  datatype Attempt = Attempt(now: int, username: string, address: string) {
    predicate Allowed(entries: Entries) {
      Allows(Live(entries, now), UserKey(username), AddressKey(address))
    }

    function Next(entries: Entries): Entries {
      if Allowed(entries)
      then Bump(Bump(Live(entries, now), UserKey(username), now), AddressKey(address), now)
      else Live(entries, now)
    }

    predicate Touches(key: string) {
      key == UserKey(username) || key == AddressKey(address)
    }
  }

  class Limiter {
    var entries: Entries
    /** Every attempt and its answer. */
    ghost var history: seq<Answered>

    ghost predicate Valid()
      reads this
    {
      Given(history) && entries == After(AttemptsOf(history))
    }

    constructor ()
      ensures Valid() && history == []
    {
      entries, history := map[], [];
    }

    /** If the clock has not gone back, the attempt is allowed exactly if fewer than five
        allowed ones of this user and twenty from this address belong to their open
        windows, and all open windows with these two are at most 4096. */
    method Allow(now: int, username: string, address: string) returns (allowed: bool)
      requires Valid()
      modifies this
      ensures Valid() && history == old(history) + [Answered(now, username, address, allowed)]
      ensures allowed == Attempt(now, username, address).Allowed(old(entries))
      ensures entries == Attempt(now, username, address).Next(old(entries))
      ensures IsForward(history) ==>
                (allowed <==> && Used(old(history), User(username), now) < 5
                              && Used(old(history), Address(address), now) < 20
                              && |OpenWindows(old(history), now) + {User(username), Address(address)}| <= 4096)
    {
      KeysDiffer(username, address);
      DropExpired(now);
      allowed := Check(UserKey(username), AddressKey(address));
      if allowed {
        Record(UserKey(username), now);
        Record(AddressKey(address), now);
      }
      GivenGoesOn(history, Answered(now, username, address, allowed));
      if IsForward(history + [Answered(now, username, address, allowed)]) {
        ForwardBefore(history, Answered(now, username, address, allowed));
        HistoryDecides(history, now, username, address);
      }
      history := history + [Answered(now, username, address, allowed)];
    }

    method DropExpired(now: int)
      modifies this`entries
      ensures entries == Live(old(entries), now)
    {
      var pending := entries.Keys;
      while pending != {}
        invariant pending <= old(entries).Keys
        invariant entries == map key | key in old(entries) && (key in pending || now < old(entries)[key].expires) ::
                               old(entries)[key]
      {
        var key :| key in pending;
        if !(now < entries[key].expires) {
          entries := entries - {key};
        }
        pending := pending - {key};
      }
    }

    /** Both counters below their limits, and room for what is missing. */
    method Check(userKey: string, addressKey: string) returns (allowed: bool)
      requires userKey != addressKey
      ensures allowed == Allows(entries, userKey, addressKey)
    {
      var keys, limits := [userKey, addressKey], [USER_LIMIT, ADDRESS_LIMIT];
      var missing := 0;
      for i := 0 to 2
        invariant missing == (if i > 0 then Missing(entries, userKey) else 0)
                             + (if i > 1 then Missing(entries, addressKey) else 0)
        invariant forall k | 0 <= k < i :: CountOf(entries, keys[k]) < limits[k]
      {
        if keys[i] in entries {
          if entries[keys[i]].count >= limits[i] {
            return false;
          }
        } else {
          missing := missing + 1;
        }
      }
      assert CountOf(entries, keys[0]) < limits[0] && CountOf(entries, keys[1]) < limits[1];
      return |entries| + missing <= MAX_ENTRIES;
    }

    method Record(key: string, now: int)
      modifies this`entries
      ensures entries == Bump(old(entries), key, now)
    {
      var attempts := if key in entries then entries[key] else Attempts(0, 0);
      if attempts.count == 0 {
        attempts := attempts.(expires := now + MINUTE);
      }
      attempts := attempts.(count := attempts.count + 1);
      entries := entries[key := attempts];
    }
  }

  // ----- What every state keeps

  predicate Sound(entries: Entries) {
    && |entries| <= MAX_ENTRIES
    && forall key | key in entries :: entries[key].count > 0
  }

  /** The table stays within its cap, and a denied attempt changes no live counter. */
  lemma AttemptKeepsSound(attempt: Attempt, entries: Entries)
    requires Sound(entries)
    ensures Sound(attempt.Next(entries))
    ensures !attempt.Allowed(entries) ==> forall key | key in entries && attempt.now < entries[key].expires ::
              key in attempt.Next(entries) && attempt.Next(entries)[key] == entries[key]
  {
    var live := Live(entries, attempt.now);
    assert live.Keys <= entries.Keys;
    SubsetIsSmaller(live.Keys, entries.Keys);
    if attempt.Allowed(entries) {
      KeysDiffer(attempt.username, attempt.address);
      BumpSize(live, UserKey(attempt.username), attempt.now);
      BumpSize(Bump(live, UserKey(attempt.username), attempt.now), AddressKey(attempt.address), attempt.now);
    }
  }

  lemma SubsetIsSmaller<T>(a: set<T>, b: set<T>)
    requires a <= b
    ensures |a| <= |b|
  {
    assert b == a + (b - a);
  }

  lemma BumpSize(entries: Entries, key: string, now: int)
    ensures |Bump(entries, key, now)| == |entries| + Missing(entries, key)
  {
    assert Bump(entries, key, now).Keys == entries.Keys + {key};
  }

  // ----- Runs

  function After(attempts: seq<Attempt>): Entries {
    if attempts == [] then map[] else
      attempts[|attempts| - 1].Next(After(attempts[..|attempts| - 1]))
  }

  predicate ClockAdvances(attempts: seq<Attempt>) {
    forall i, j | 0 <= i < j < |attempts| :: attempts[i].now <= attempts[j].now
  }

  /** How many attempts on the key were allowed in the minute that begins at start. */
  function AllowedIn(attempts: seq<Attempt>, key: string, start: int): nat {
    if attempts == [] then 0 else
      var last := attempts[|attempts| - 1];
      AllowedIn(attempts[..|attempts| - 1], key, start)
      + if last.Touches(key) && start <= last.now < start + MINUTE && last.Allowed(After(attempts[..|attempts| - 1]))
        then 1 else 0
  }

  lemma {:induction false} TableStaysBounded(attempts: seq<Attempt>)
    ensures Sound(After(attempts))
  {
    if attempts != [] {
      TableStaysBounded(attempts[..|attempts| - 1]);
      AttemptKeepsSound(attempts[|attempts| - 1], After(attempts[..|attempts| - 1]));
    }
  }

  /** A key with at most this many allowed attempts per window. */
  ghost predicate Limits(key: string, limit: nat) {
    || (limit == USER_LIMIT && exists username :: key == UserKey(username))
    || (limit == ADDRESS_LIMIT && exists address :: key == AddressKey(address))
  }

  /** How much of the minute's allowance is used, by the window that was open
      before it and by the one opened within it. */
  ghost predicate Budget(entries: Entries, now: int, key: string, limit: nat, start: int, used: nat) {
    && (key in entries ==> entries[key].count <= limit && entries[key].expires <= now + MINUTE)
    && (now < start ==> used == 0)
    && (start <= now < start + MINUTE ==>
          if key !in entries || entries[key].expires <= now then used <= limit - 1
          else if entries[key].expires < start + MINUTE then used <= entries[key].count - 1
          else used <= limit - 1 + entries[key].count)
    && used <= 2 * limit - 1
  }

  lemma NextCount(attempt: Attempt, entries: Entries, key: string)
    requires Sound(entries)
    ensures attempt.Allowed(entries) && attempt.Touches(key) ==>
              key in attempt.Next(entries)
              && attempt.Next(entries)[key] ==
                 (if key in Live(entries, attempt.now)
                  then Attempts(entries[key].count + 1, entries[key].expires)
                  else Attempts(1, attempt.now + MINUTE))
    ensures !(attempt.Allowed(entries) && attempt.Touches(key)) ==>
              if key in Live(entries, attempt.now)
              then key in attempt.Next(entries) && attempt.Next(entries)[key] == entries[key]
              else key !in attempt.Next(entries)
  {
    KeysDiffer(attempt.username, attempt.address);
  }

  lemma AllowedBelowLimit(attempt: Attempt, entries: Entries, key: string, limit: nat)
    requires Limits(key, limit) && attempt.Allowed(entries) && attempt.Touches(key)
    ensures CountOf(Live(entries, attempt.now), key) < limit
  {
    if username :| limit == USER_LIMIT && key == UserKey(username) {
      KeysDiffer(username, attempt.address);
    } else {
      var address :| key == AddressKey(address);
      KeysDiffer(attempt.username, address);
    }
  }

  lemma {:induction false} RunKeepsBudget(attempts: seq<Attempt>, key: string, limit: nat, start: int)
    requires attempts != [] && ClockAdvances(attempts) && Limits(key, limit)
    ensures Budget(After(attempts), attempts[|attempts| - 1].now, key, limit, start, AllowedIn(attempts, key, start))
  {
    var last := |attempts| - 1;
    var earlier, attempt := attempts[..last], attempts[last];
    TableStaysBounded(earlier);
    NextCount(attempt, After(earlier), key);
    if attempt.Allowed(After(earlier)) && attempt.Touches(key) {
      AllowedBelowLimit(attempt, After(earlier), key, limit);
    }
    if last > 0 {
      RunKeepsBudget(earlier, key, limit, start);
      assert earlier[last - 1].now <= attempt.now;
    }
  }

  /** Whatever the run, no half-open minute sees more than nine allowed attempts
      for a user or thirty-nine for an address. */
  lemma SlidingWindowBound(attempts: seq<Attempt>, username: string, address: string, start: int)
    requires ClockAdvances(attempts)
    ensures AllowedIn(attempts, UserKey(username), start) <= 9
    ensures AllowedIn(attempts, AddressKey(address), start) <= 39
  {
    if attempts != [] {
      RunKeepsBudget(attempts, UserKey(username), USER_LIMIT, start);
      RunKeepsBudget(attempts, AddressKey(address), ADDRESS_LIMIT, start);
    }
  }

  // ----- What is allowed, told from the history alone

  /** Whom an attempt counts for. */
  datatype Party = User(name: string) | Address(name: string)

  datatype Answered = Answered(now: int, username: string, address: string, allowed: bool) {
    predicate CountsFor(party: Party) {
      allowed && match party { case User(name) => username == name case Address(name) => address == name }
    }
  }

  function AttemptsOf(history: seq<Answered>): (attempts: seq<Attempt>)
    ensures |attempts| == |history|
  {
    seq(|history|, i requires 0 <= i < |history| =>
      Attempt(history[i].now, history[i].username, history[i].address))
  }

  /** The answers are those that the table gives. */
  predicate Given(history: seq<Answered>) {
    history == []
    || (var before, last := history[..|history| - 1], history[|history| - 1];
        && Given(before)
        && last.allowed == Attempt(last.now, last.username, last.address).Allowed(After(AttemptsOf(before))))
  }

  predicate IsForward(history: seq<Answered>) {
    forall i, j | 0 <= i < j < |history| :: history[i].now <= history[j].now
  }

  /** When the latest window of the party opened: with an allowed attempt a minute or
      more after the window before had opened. */
  function Opening(history: seq<Answered>, party: Party): Option<int> {
    if history == [] then None
    else
      var opening, last := Opening(history[..|history| - 1], party), history[|history| - 1];
      if !last.CountsFor(party) || (opening.Some? && last.now < opening.value + 60_000_000_000) then opening
      else Some(last.now)
  }

  predicate IsOpen(history: seq<Answered>, party: Party, now: int) {
    var opening := Opening(history, party);
    opening.Some? && now < opening.value + 60_000_000_000
  }

  /** The allowed attempts of the party since a time. */
  function Since(history: seq<Answered>, party: Party, time: int): nat {
    if history == [] then 0
    else
      var last := history[|history| - 1];
      Since(history[..|history| - 1], party, time) + if last.CountsFor(party) && last.now >= time then 1 else 0
  }

  /** How many of them belong to the window that is open. */
  function Used(history: seq<Answered>, party: Party, now: int): nat {
    if IsOpen(history, party, now) then Since(history, party, Opening(history, party).value) else 0
  }

  function Parties(history: seq<Answered>): set<Party> {
    (set i | 0 <= i < |history| :: User(history[i].username)) + (set i | 0 <= i < |history| ::
        Address(history[i].address))
  }

  function OpenWindows(history: seq<Answered>, now: int): set<Party> {
    set party | party in Parties(history) && IsOpen(history, party, now)
  }

  function KeyOf(party: Party): string {
    match party case User(name) => UserKey(name) case Address(name) => AddressKey(name)
  }

  lemma KeyTellsParty(p: Party, q: Party)
    ensures KeyOf(p) == KeyOf(q) <==> p == q
  {
    KeysDiffer(p.name, q.name);
    KeysDiffer(q.name, p.name);
    assert UserKey(p.name)[5..] == p.name && UserKey(q.name)[5..] == q.name;
    assert AddressKey(p.name)[3..] == p.name && AddressKey(q.name)[3..] == q.name;
  }

  lemma GivenGoesOn(history: seq<Answered>, next: Answered)
    requires Given(history)
    requires next.allowed == Attempt(next.now, next.username, next.address).Allowed(After(AttemptsOf(history)))
    ensures Given(history + [next])
    ensures After(AttemptsOf(history + [next])) ==
            Attempt(next.now, next.username, next.address).Next(After(AttemptsOf(history)))
  {
    var all := history + [next];
    assert all[..|all| - 1] == history;
    assert AttemptsOf(all)[..|history|] == AttemptsOf(history);
  }

  /** A window lasts at least until the last attempt it counts. */
  lemma {:induction false} CountedBeforeEnd(history: seq<Answered>, party: Party, i: nat)
    requires IsForward(history) && i < |history| && history[i].CountsFor(party)
    ensures Opening(history, party).Some? && history[i].now < Opening(history, party).value + 60_000_000_000
  {
    var before := history[..|history| - 1];
    if i < |history| - 1 {
      CountedBeforeEnd(before, party, i);
    }
  }

  lemma {:induction false} NoneSince(history: seq<Answered>, party: Party, time: int)
    requires forall i | 0 <= i < |history| && history[i].CountsFor(party) :: history[i].now < time
    ensures Since(history, party, time) == 0
  {
    if history != [] {
      NoneSince(history[..|history| - 1], party, time);
    }
  }

  /** The entry of a party in a table without expired entries. */
  ghost predicate Tells(live: Entries, history: seq<Answered>, party: Party, now: int) {
    && (KeyOf(party) in live <==> IsOpen(history, party, now))
    && (IsOpen(history, party, now) ==>
          live[KeyOf(party)] ==
          Attempts(Used(history, party, now), Opening(history, party).value + 60_000_000_000))
  }

  lemma {:induction false} OpeningIsCounted(history: seq<Answered>, party: Party) returns (i: nat)
    requires Opening(history, party).Some?
    ensures i < |history| && history[i].CountsFor(party) && history[i].now == Opening(history, party).value
  {
    var last := |history| - 1;
    if Opening(history, party) == Opening(history[..last], party) {
      i := OpeningIsCounted(history[..last], party);
    } else {
      i := last;
    }
  }

  /** What a counted attempt does to the window of its party. */
  lemma CountedStep(history: seq<Answered>, party: Party)
    requires history != [] && IsForward(history) && history[|history| - 1].CountsFor(party)
    ensures var before, now := history[..|history| - 1], history[|history| - 1].now;
            && IsOpen(history, party, now) && Used(history, party, now) == Used(before, party, now) + 1
            && Opening(history, party) == if IsOpen(before, party, now) then Opening(before, party) else Some(now)
  {
    var before, now := history[..|history| - 1], history[|history| - 1].now;
    if IsOpen(before, party, now) {
      var i := OpeningIsCounted(before, party);
    } else {
      forall i | 0 <= i < |before| && before[i].CountsFor(party) ensures before[i].now < now {
        CountedBeforeEnd(before, party, i);
      }
      NoneSince(before, party, now);
    }
  }

  lemma UncountedStep(history: seq<Answered>, party: Party, now: int)
    requires history != [] && !history[|history| - 1].CountsFor(party)
    ensures var before := history[..|history| - 1];
            && Opening(history, party) == Opening(before, party)
            && (IsOpen(history, party, now) <==> IsOpen(before, party, now))
            && Used(history, party, now) == Used(before, party, now)
  {
  }

  lemma TouchesItsParties(attempt: Attempt, party: Party)
    ensures attempt.Touches(KeyOf(party)) <==> party == User(attempt.username) || party == Address(attempt.address)
  {
    KeyTellsParty(party, User(attempt.username));
    KeyTellsParty(party, Address(attempt.address));
  }

  lemma StepTells(table: Entries, history: seq<Answered>, party: Party)
    requires history != [] && IsForward(history) && Sound(table)
    requires var before, last := history[..|history| - 1], history[|history| - 1];
             && last.allowed == Attempt(last.now, last.username, last.address).Allowed(table)
             && Tells(Live(table, last.now), before, party, last.now)
    ensures var last := history[|history| - 1];
            Tells(Live(Attempt(last.now, last.username, last.address).Next(table), last.now), history, party, last.now)
  {
    var last := history[|history| - 1];
    var attempt := Attempt(last.now, last.username, last.address);
    NextCount(attempt, table, KeyOf(party));
    TouchesItsParties(attempt, party);
    if last.CountsFor(party) {
      CountedStep(history, party);
    } else {
      UncountedStep(history, party, last.now);
    }
  }

  lemma LaterTells(table: Entries, history: seq<Answered>, party: Party, time: int, now: int)
    requires time <= now && Tells(Live(table, time), history, party, time)
    ensures Tells(Live(table, now), history, party, now)
  {
  }

  lemma {:induction false} TableTells(history: seq<Answered>, party: Party, now: int)
    requires Given(history) && IsForward(history) && (history == [] || history[|history| - 1].now <= now)
    ensures Tells(Live(After(AttemptsOf(history)), now), history, party, now)
  {
    if history != [] {
      var before, last := history[..|history| - 1], history[|history| - 1];
      TableTells(before, party, last.now);
      TableStaysBounded(AttemptsOf(before));
      StepTells(After(AttemptsOf(before)), history, party);
      GivenGoesOn(before, last);
      assert before + [last] == history;
      LaterTells(After(AttemptsOf(history)), history, party, last.now, now);
    }
  }

  lemma {:induction false} KeysNameParties(history: seq<Answered>)
    ensures forall key | key in After(AttemptsOf(history)) ::
              exists party :: party in Parties(history) && key == KeyOf(party)
  {
    if history != [] {
      var before, last := history[..|history| - 1], history[|history| - 1];
      KeysNameParties(before);
      assert AttemptsOf(history)[..|before|] == AttemptsOf(before);
      assert User(last.username) in Parties(history) && Address(last.address) in Parties(history);
      forall key | key in After(AttemptsOf(before))
        ensures exists party :: party in Parties(history) && key == KeyOf(party)
      {
        var party :| party in Parties(before) && key == KeyOf(party);
        PartiesGrow(history, party);
      }
      assert KeyOf(User(last.username)) == UserKey(last.username);
      assert KeyOf(Address(last.address)) == AddressKey(last.address);
    }
  }

  lemma PartiesGrow(history: seq<Answered>, party: Party)
    requires history != [] && party in Parties(history[..|history| - 1])
    ensures party in Parties(history)
  {
  }

  lemma {:induction false} AsManyKeys(parties: set<Party>, keys: set<string>)
    requires forall key :: key in keys <==> exists party :: party in parties && key == KeyOf(party)
    ensures |keys| == |parties|
    decreases |parties|
  {
    if parties == {} {
      assert keys == {};
    } else {
      var party :| party in parties;
      forall other | other in parties ensures KeyOf(other) == KeyOf(party) <==> other == party {
        KeyTellsParty(other, party);
      }
      assert KeyOf(party) in keys;
      AsManyKeys(parties - {party}, keys - {KeyOf(party)});
    }
  }

  lemma WindowHasEntry(history: seq<Answered>, party: Party, now: int)
    requires Given(history) && IsForward(history) && (history == [] || history[|history| - 1].now <= now)
    ensures KeyOf(party) in Live(After(AttemptsOf(history)), now) <==> party in OpenWindows(history, now)
  {
    TableTells(history, party, now);
    if IsOpen(history, party, now) {
      var i := OpeningIsCounted(history, party);
    }
  }

  /** The table has an entry for each open window. */
  lemma TableIsWindows(history: seq<Answered>, now: int)
    requires Given(history) && IsForward(history) && (history == [] || history[|history| - 1].now <= now)
    ensures forall party :: KeyOf(party) in Live(After(AttemptsOf(history)), now) <==>
            party in OpenWindows(history, now)
    ensures |Live(After(AttemptsOf(history)), now)| == |OpenWindows(history, now)|
  {
    var live := Live(After(AttemptsOf(history)), now);
    KeysNameParties(history);
    forall party ensures KeyOf(party) in live <==> party in OpenWindows(history, now) {
      WindowHasEntry(history, party, now);
    }
    AsManyKeys(OpenWindows(history, now), live.Keys);
  }

  /** Five allowed attempts of a user and twenty from an address in their open windows,
      and 4096 windows: that alone decides. */
  lemma HistoryDecides(history: seq<Answered>, now: int, username: string, address: string)
    requires Given(history) && IsForward(history) && (history == [] || history[|history| - 1].now <= now)
    ensures Attempt(now, username, address).Allowed(After(AttemptsOf(history))) <==>
            && Used(history, User(username), now) < 5
            && Used(history, Address(address), now) < 20
            && |OpenWindows(history, now) + {User(username), Address(address)}| <= 4096
  {
    TableIsWindows(history, now);
    TableTells(history, User(username), now);
    TableTells(history, Address(address), now);
    WithBoth(OpenWindows(history, now), User(username), Address(address));
  }

  lemma ForwardBefore(history: seq<Answered>, next: Answered)
    requires IsForward(history + [next])
    ensures IsForward(history) && (history == [] || history[|history| - 1].now <= next.now)
  {
    var all := history + [next];
    assert forall i | 0 <= i < |history| :: all[i] == history[i];
    assert all[|history|] == next;
  }

  lemma WithBoth(parties: set<Party>, p: Party, q: Party)
    requires p != q
    ensures |parties + {p, q}| == |parties| + (if p in parties then 0 else 1) + if q in parties then 0 else 1
  {
    var one := parties + {p};
    assert parties + {p, q} == one + {q};
    assert p in parties ==> one == parties;
    assert q in parties ==> one + {q} == one;
  }

  /** Whoever did not try within the last minute, from an address nobody tried from, is
      allowed as long as there is room. */
  lemma NewcomerIsAllowed(history: seq<Answered>, now: int, username: string, address: string)
    requires Given(history) && IsForward(history) && (history == [] || history[|history| - 1].now <= now)
    requires forall i | 0 <= i < |history| && now - 60_000_000_000 < history[i].now ::
               history[i].username != username && history[i].address != address
    requires |OpenWindows(history, now)| <= 4094
    ensures Attempt(now, username, address).Allowed(After(AttemptsOf(history)))
  {
    HistoryDecides(history, now, username, address);
    WithBoth(OpenWindows(history, now), User(username), Address(address));
    NotOpen(history, User(username), now);
    NotOpen(history, Address(address), now);
  }

  lemma NotOpen(history: seq<Answered>, party: Party, now: int)
    requires forall i | 0 <= i < |history| && now - 60_000_000_000 < history[i].now :: !history[i].CountsFor(party)
    ensures !IsOpen(history, party, now)
  {
    if Opening(history, party).Some? {
      var i := OpeningIsCounted(history, party);
    }
  }

  // ----- The bound is reached

  function Repeat(attempts: seq<Attempt>, attempt: Attempt, n: nat): seq<Attempt> {
    if n == 0 then attempts else Repeat(attempts, attempt, n - 1) + [attempt]
  }

  /** The counter of the key after n more allowed attempts. */
  ghost predicate Counts(entries: Entries, key: string, now: int, before: Entries, n: nat) {
    var live := Live(before, now);
    && key in entries && entries[key].count == CountOf(live, key) + n
    && entries[key].expires == if key in live then live[key].expires else now + MINUTE
  }

  /** The state before n more attempts leaves room for all of them. */
  ghost predicate HasRoom(before: Entries, attempt: Attempt, n: nat) {
    && before.Keys <= {UserKey(attempt.username), AddressKey(attempt.address)}
    && CountOf(Live(before, attempt.now), UserKey(attempt.username)) + n <= USER_LIMIT
    && CountOf(Live(before, attempt.now), AddressKey(attempt.address)) + n <= ADDRESS_LIMIT
  }

  ghost predicate Spent(before: Entries, after: Entries, attempt: Attempt, n: nat) {
    && after.Keys == {UserKey(attempt.username), AddressKey(attempt.address)}
    && Counts(after, UserKey(attempt.username), attempt.now, before, n)
    && Counts(after, AddressKey(attempt.address), attempt.now, before, n)
  }

  lemma FirstOfBurst(before: Entries, attempt: Attempt)
    requires Sound(before) && HasRoom(before, attempt, 1)
    ensures attempt.Allowed(before) && Spent(before, attempt.Next(before), attempt, 1)
  {
    var live := Live(before, attempt.now);
    SubsetIsSmaller(live.Keys, {UserKey(attempt.username), AddressKey(attempt.address)});
    NextCount(attempt, before, UserKey(attempt.username));
    NextCount(attempt, before, AddressKey(attempt.address));
  }

  lemma NextOfBurst(before: Entries, middle: Entries, attempt: Attempt, n: nat)
    requires Sound(middle) && HasRoom(before, attempt, n + 1) && Spent(before, middle, attempt, n)
    ensures attempt.Allowed(middle) && Spent(before, attempt.Next(middle), attempt, n + 1)
  {
    assert Live(middle, attempt.now) == middle;
    FirstOfBurst(middle, attempt);
  }

  lemma OneMore(earlier: seq<Attempt>, attempt: Attempt, key: string, start: int)
    ensures After(earlier + [attempt]) == attempt.Next(After(earlier))
    ensures AllowedIn(earlier + [attempt], key, start) == AllowedIn(earlier, key, start)
              + if attempt.Touches(key) && start <= attempt.now < start + MINUTE && attempt.Allowed(After(earlier))
                then 1 else 0
  {
    assert (earlier + [attempt])[..|earlier|] == earlier;
  }

  /** Attempts below both limits are all allowed. */
  lemma {:induction false} Burst(earlier: seq<Attempt>, attempt: Attempt, n: nat, start: int)
    requires n > 0 && HasRoom(After(earlier), attempt, n)
    ensures var run, key := Repeat(earlier, attempt, n), UserKey(attempt.username);
            && Spent(After(earlier), After(run), attempt, n)
            && AllowedIn(run, key, start) ==
               AllowedIn(earlier, key, start) + if start <= attempt.now < start + MINUTE then n else 0
  {
    var before := Repeat(earlier, attempt, n - 1);
    OneMore(before, attempt, UserKey(attempt.username), start);
    TableStaysBounded(before);
    if n > 1 {
      Burst(earlier, attempt, n - 1, start);
      NextOfBurst(After(earlier), After(before), attempt, n - 1);
    } else {
      FirstOfBurst(After(earlier), attempt);
    }
  }

  /** The clock has not passed the time. */
  predicate EndsBy(attempts: seq<Attempt>, now: int) {
    ClockAdvances(attempts) && (attempts == [] || attempts[|attempts| - 1].now <= now)
  }

  lemma {:induction false} RepeatAdvances(earlier: seq<Attempt>, attempt: Attempt, n: nat)
    requires EndsBy(earlier, attempt.now)
    ensures ClockAdvances(Repeat(earlier, attempt, n))
    ensures n > 0 ==> var run := Repeat(earlier, attempt, n); run != [] && run[|run| - 1] == attempt
  {
    if n > 0 {
      RepeatAdvances(earlier, attempt, n - 1);
    }
  }

  lemma NextBurst(earlier: seq<Attempt>, attempt: Attempt, n: nat, start: int) returns (run: seq<Attempt>)
    requires EndsBy(earlier, attempt.now) && n > 0 && HasRoom(After(earlier), attempt, n)
    ensures EndsBy(run, attempt.now) && Spent(After(earlier), After(run), attempt, n)
    ensures AllowedIn(run, UserKey(attempt.username), start) ==
            AllowedIn(earlier, UserKey(attempt.username), start)
            + if start <= attempt.now < start + MINUTE then n else 0
  {
    run := Repeat(earlier, attempt, n);
    Burst(earlier, attempt, n, start);
    RepeatAdvances(earlier, attempt, n);
  }

  /** One attempt, four just before its window closes, five right after: nine
      within one minute. */
  lemma NineAreReached(username: string, address: string) returns (attempts: seq<Attempt>, start: int)
    ensures ClockAdvances(attempts) && AllowedIn(attempts, UserKey(username), start) == 9
  {
    start := 1;
    var first := NextBurst([], Attempt(0, username, address), 1, start);
    var second := NextBurst(first, Attempt(MINUTE - 1, username, address), 4, start);
    attempts := NextBurst(second, Attempt(MINUTE, username, address), 5, start);
  }

  ghost predicate Strangers(entries: Entries, users: seq<string>) {
    && (forall i | 0 <= i < |users| :: UserKey(users[i]) !in entries)
    && (forall i, j | 0 <= i < j < |users| :: users[i] != users[j])
  }

  ghost function KeysOf(users: seq<string>, address: string): set<string> {
    (set user | user in users :: UserKey(user)) + {AddressKey(address)}
  }

  lemma OfStranger(before: Entries, attempt: Attempt)
    requires Sound(before) && |before| + 2 <= MAX_ENTRIES && UserKey(attempt.username) !in before
    requires CountOf(Live(before, attempt.now), AddressKey(attempt.address)) < ADDRESS_LIMIT
    ensures attempt.Allowed(before)
    ensures attempt.Next(before).Keys <= before.Keys + {UserKey(attempt.username), AddressKey(attempt.address)}
    ensures Counts(attempt.Next(before), AddressKey(attempt.address), attempt.now, before, 1)
  {
    SubsetIsSmaller(Live(before, attempt.now).Keys, before.Keys);
    NextCount(attempt, before, AddressKey(attempt.address));
  }

  lemma TableGrows(before: Entries, after: Entries, attempt: Attempt)
    requires after.Keys <= before.Keys + {UserKey(attempt.username), AddressKey(attempt.address)}
    ensures |after| <= |before| + if AddressKey(attempt.address) in before then 1 else 2
  {
    var added := before.Keys + {UserKey(attempt.username), AddressKey(attempt.address)};
    SubsetIsSmaller(after.Keys, added);
    if AddressKey(attempt.address) in before {
      assert added == before.Keys + {UserKey(attempt.username)};
    }
  }

  /** The table after a sweep: its own keys are new, and it counts for the address. */
  ghost predicate Swept(before: Entries, after: Entries, now: int, users: seq<string>, address: string) {
    && after.Keys <= before.Keys + KeysOf(users, address)
    && |after| <= |before| + 2 * |users|
    && if users == [] then after == before else Counts(after, AddressKey(address), now, before, |users|)
  }

  lemma SweptOne(before: Entries, middle: Entries, now: int, others: seq<string>, user: string, address: string)
    requires Sound(middle) && Swept(before, middle, now, others, address)
    requires UserKey(user) !in before && user !in others && |before| + 2 * |others| + 2 <= MAX_ENTRIES
    requires CountOf(Live(before, now), AddressKey(address)) + |others| < ADDRESS_LIMIT
    ensures Attempt(now, user, address).Allowed(middle)
    ensures Swept(before, Attempt(now, user, address).Next(middle), now, others + [user], address)
  {
    var attempt := Attempt(now, user, address);
    StrangerStays(before, middle, others, user, address);
    OfStranger(middle, attempt);
    TableGrows(middle, attempt.Next(middle), attempt);
    KeysOfMore(others, user, address);
  }

  lemma KeysOfMore(others: seq<string>, user: string, address: string)
    ensures KeysOf(others, address) + {UserKey(user), AddressKey(address)} == KeysOf(others + [user], address)
  {
    assert forall other :: other in others + [user] <==> other in others || other == user;
  }

  /** Strangers from an address below its limit, each once, are all allowed. */
  lemma {:induction false} SweepIsAllowed(earlier: seq<Attempt>, now: int, users: seq<string>, address: string,
                                          start: int)
      returns (run: seq<Attempt>)
    requires EndsBy(earlier, now)
    requires Strangers(After(earlier), users) && |After(earlier)| + 2 * |users| <= MAX_ENTRIES
    requires CountOf(Live(After(earlier), now), AddressKey(address)) + |users| <= ADDRESS_LIMIT
    ensures EndsBy(run, now) && Swept(After(earlier), After(run), now, users, address)
    ensures AllowedIn(run, AddressKey(address), start) ==
            AllowedIn(earlier, AddressKey(address), start) + if start <= now < start + MINUTE then |users| else 0
    decreases |users|
  {
    if users == [] {
      run := earlier;
    } else {
      var others, user := StrangersWithoutLast(After(earlier), users);
      var before := SweepIsAllowed(earlier, now, others, address, start);
      run := before + [Attempt(now, user, address)];
      EndsByThen(before, Attempt(now, user, address));
      SweepGoesOn(earlier, before, now, others, user, address, start);
    }
  }

  lemma EndsByThen(earlier: seq<Attempt>, attempt: Attempt)
    requires EndsBy(earlier, attempt.now)
    ensures EndsBy(earlier + [attempt], attempt.now)
  {
  }

  lemma StrangersWithoutLast(entries: Entries, users: seq<string>) returns (others: seq<string>, user: string)
    requires users != [] && Strangers(entries, users)
    ensures users == others + [user] && Strangers(entries, others) && UserKey(user) !in entries && user !in others
  {
    others, user := users[..|users| - 1], users[|users| - 1];
  }

  lemma SweepGoesOn(earlier: seq<Attempt>, before: seq<Attempt>, now: int, others: seq<string>, user: string,
                    address: string, start: int)
    requires Swept(After(earlier), After(before), now, others, address)
    requires UserKey(user) !in After(earlier) && user !in others
    requires |After(earlier)| + 2 * |others| + 2 <= MAX_ENTRIES
    requires CountOf(Live(After(earlier), now), AddressKey(address)) + |others| < ADDRESS_LIMIT
    ensures var run := before + [Attempt(now, user, address)];
            && Swept(After(earlier), After(run), now, others + [user], address)
            && AllowedIn(run, AddressKey(address), start) ==
               AllowedIn(before, AddressKey(address), start) + if start <= now < start + MINUTE then 1 else 0
  {
    TableStaysBounded(before);
    SweptOne(After(earlier), After(before), now, others, user, address);
    OneMore(before, Attempt(now, user, address), AddressKey(address), start);
  }

  lemma StrangerStays(before: Entries, after: Entries, others: seq<string>, user: string, address: string)
    requires after.Keys <= before.Keys + KeysOf(others, address)
    requires UserKey(user) !in before && user !in others
    ensures UserKey(user) !in after
  {
    KeysDiffer(user, address);
    forall other | other in others ensures UserKey(other) != UserKey(user) {
      assert UserKey(other)[5..] == other && UserKey(user)[5..] == user;
    }
  }

  /** Different names, told apart by their lengths. */
  function Users(from: nat, to: nat): (users: seq<string>)
    requires from <= to
    ensures |users| == to - from && forall i | 0 <= i < to - from :: |users[i]| == from + i
  {
    seq(to - from, i requires 0 <= i => seq(from + i, _ => 'u'))
  }

  lemma UsersAreStrangers(entries: Entries, from: nat, to: nat, address: string)
    requires from <= to && forall key | key in entries :: key == AddressKey(address) || |key| < 5 + from
    ensures Strangers(entries, Users(from, to))
  {
    forall i | 0 <= i < to - from ensures UserKey(Users(from, to)[i]) !in entries {
      KeysDiffer(Users(from, to)[i], address);
      assert |UserKey(Users(from, to)[i])| == 5 + from + i;
    }
  }

  lemma KeysOfUsers(from: nat, to: nat, address: string)
    requires from <= to
    ensures forall key | key in KeysOf(Users(from, to), address) :: key == AddressKey(address) || |key| < 5 + to
  {
  }

  /** A run that ends by the time, of users with names shorter than the length. */
  ghost predicate RunOf(attempts: seq<Attempt>, now: int, length: nat, address: string) {
    && EndsBy(attempts, now)
    && (forall key | key in After(attempts) :: key == AddressKey(address) || |key| < 5 + length)
    && |After(attempts)| <= 2 * length
  }

  lemma NextSweep(earlier: seq<Attempt>, now: int, from: nat, to: nat, address: string, start: int)
      returns (run: seq<Attempt>)
    requires RunOf(earlier, now, from, address) && from < to <= 40
    requires CountOf(Live(After(earlier), now), AddressKey(address)) + to - from <= ADDRESS_LIMIT
    ensures RunOf(run, now, to, address)
    ensures Counts(After(run), AddressKey(address), now, After(earlier), to - from)
    ensures AllowedIn(run, AddressKey(address), start) ==
            AllowedIn(earlier, AddressKey(address), start) + if start <= now < start + MINUTE then to - from else 0
  {
    var users := Users(from, to);
    UsersAreStrangers(After(earlier), from, to, address);
    run := SweepIsAllowed(earlier, now, users, address, start);
    KeysOfUsers(from, to, address);
  }

  /** The same with different users from one address: one attempt, nineteen just before
      the address's window closes, twenty right after. */
  lemma ThirtyNineAreReached(address: string) returns (attempts: seq<Attempt>, start: int)
    ensures ClockAdvances(attempts) && AllowedIn(attempts, AddressKey(address), start) == 39
  {
    start := 1;
    var first := NextSweep([], 0, 0, 1, address, start);
    var second := NextSweep(first, MINUTE - 1, 1, 20, address, start);
    attempts := NextSweep(second, MINUTE, 20, 40, address, start);
  }
}
