/** The process-local job stores: one running job per key, kept for an hour after
    it finished (internal/handler/backup_job.go, api_run_job.go,
    application_version_job.go and the other stores of the same shape). */
module JobStores {
  import opened Basics

  type Id = string

  /** What a job occupies: an application and perhaps a service of it, each printed;
      nothing at all where one job may run in the whole process. */
  type Key = seq<string>

  datatype State = Running | Complete | Failed

  /** One hour, in nanoseconds. */
  const RETENTION := 3_600_000_000_000

  /** What a job shows. The subject is the rest of the request, such as an operation
      or a source tag. Time 0 is the zero time. */
  datatype JobValue = JobValue(key: Key, subject: string, state: State, finishedAt: nat) {
    /** The first outcome counts; later ones change nothing. */
    function Finish(outcome: State, now: nat): JobValue {
      if state.Running? then this.(state := outcome, finishedAt := now) else this
    }

    predicate Expired(now: nat) {
      finishedAt != 0 && now - finishedAt > RETENTION
    }

    predicate Blocks(key: Key) {
      this.key == key && state.Running?
    }
  }

  /** How a store answers a request while its key is taken: most join whatever
      runs, version deployments join only the same source tag. */
  datatype Answer = Fresh(id: Id) | Joined(id: Id) | Busy

  class Job {
    const id: Id
    const key: Key
    const subject: string
    var state: State
    var finishedAt: nat
    /** How often the done channel was closed; closing it twice would panic. */
    var closes: nat

    function Value(): JobValue
      reads this
    {
      JobValue(key, subject, state, finishedAt)
    }

    constructor (id: Id, key: Key, subject: string)
      ensures this.id == id && Value() == JobValue(key, subject, Running, 0) && closes == 0
    {
      this.id, this.key, this.subject := id, key, subject;
      state, finishedAt, closes := Running, 0, 0;
    }

    /** The locked part of complete and fail. */
    method Finish(outcome: State, now: nat)
      modifies this`state, this`finishedAt
      ensures state == if old(state).Running? then outcome else old(state)
      ensures finishedAt == if old(state).Running? then now else old(finishedAt)
      ensures Value() == old(Value()).Finish(outcome, now)
    {
      if state.Running? {
        state := outcome;
        finishedAt := now;
      }
    }

    /** The once-only close behind it. */
    method CloseOnce()
      modifies this`closes
      ensures closes == if old(closes) == 0 then 1 else old(closes)
    {
      if closes == 0 {
        closes := closes + 1;
      }
    }

    /** Complete and fail: the outcome, and behind it the channel, so that a closed
        channel belongs to an ended job. */
    method End(outcome: State, now: nat)
      requires !outcome.Running? && closes <= 1
      modifies this
      ensures old(state).Running? ==> state == outcome && finishedAt == now
      ensures !old(state).Running? ==> state == old(state) && finishedAt == old(finishedAt)
      ensures Value() == old(Value()).Finish(outcome, now)
      ensures closes == 1 && !state.Running?
    {
      Finish(outcome, now);
      CloseOnce();
    }
  }

  class Store {
    var jobs: map<Id, Job>

    constructor ()
      ensures jobs == map[]
    {
      jobs := map[];
    }

    /** Every entry is filed under its id, and a key has one running job. */
    ghost predicate Valid()
      reads this, jobs.Values
    {
      && (forall id | id in jobs :: jobs[id].id == id)
      && (forall a, b | a in jobs && b in jobs && jobs[a].state.Running? && jobs[b].state.Running?
                        && jobs[a].key == jobs[b].key :: a == b)
      && (forall id | id in jobs :: jobs[id].state.Running? <==> jobs[id].finishedAt == 0)
    }

    /** The loop of a creation: looks for the running job of the key, in any order,
        and forgets the expired jobs it passes. */
    method FindRunning(key: Key, now: nat) returns (found: Option<Id>)
      modifies this
      ensures jobs.Keys <= old(jobs).Keys && forall a | a in jobs :: jobs[a] == old(jobs)[a]
      ensures forall a | a in old(jobs) && a !in jobs :: old(jobs)[a].Value().Expired(now)
      ensures found.Some? ==>
                found.value in jobs && jobs[found.value].key == key && jobs[found.value].state.Running?
      ensures found.None? ==> forall a | a in old(jobs) :: !(old(jobs)[a].key == key && old(jobs)[a].state.Running?)
      ensures found.None? ==> forall a | a in jobs :: !jobs[a].Value().Expired(now)
    {
      var pending := jobs.Keys;
      while pending != {}
        invariant pending <= jobs.Keys <= old(jobs).Keys
        invariant forall a | a in jobs :: jobs[a] == old(jobs)[a]
        invariant forall a | a in old(jobs) && a !in pending ::
                    !(old(jobs)[a].key == key && old(jobs)[a].state.Running?)
        invariant forall a | a in old(jobs) && a !in jobs :: old(jobs)[a].Value().Expired(now)
        invariant forall a | a in jobs && a !in pending :: !jobs[a].Value().Expired(now)
      {
        var next :| next in pending;
        pending := pending - {next};
        var existing := jobs[next];
        if existing.key == key && existing.state.Running? {
          return Some(next);
        }
        if existing.finishedAt != 0 && now - existing.finishedAt > RETENTION {
          jobs := jobs - {next};
        }
      }
      return None;
    }

    /** Returns the running job of the key, whichever order the map is ranged in, or
        files a new one; on the way it forgets expired jobs, all of them if it files
        a new one. */
    method CreateUnique(id: Id, key: Key, subject: string, now: nat, joins: (string, string) -> bool)
        returns (answer: Answer, job: Job?)
      requires Valid() && id !in jobs
      modifies this
      ensures Valid()
      ensures forall a | a in old(jobs) && a !in jobs :: old(jobs)[a].Value().Expired(now)
      ensures forall a | a in jobs && a != id :: a in old(jobs) && jobs[a] == old(jobs)[a]
      ensures forall a | a in old(jobs) && old(jobs)[a].key == key && old(jobs)[a].state.Running? ::
                && id !in jobs
                && if joins(old(jobs)[a].subject, subject) then answer == Joined(a) && job == old(jobs)[a]
                   else answer == Busy && job == null
      ensures (forall a | a in old(jobs) :: !(old(jobs)[a].key == key && old(jobs)[a].state.Running?)) ==>
                && answer == Fresh(id) && id in jobs && job == jobs[id] && fresh(job)
                && job.Value() == JobValue(key, subject, Running, 0)
                && forall a | a in jobs :: !jobs[a].Value().Expired(now)
    {
      var found := FindRunning(key, now);
      if found.Some? {
        var existing := jobs[found.value];
        if joins(existing.subject, subject) {
          return Joined(found.value), existing;
        }
        return Busy, null;
      }
      job := File(id, key, subject);
      answer := Fresh(id);
    }

    method File(id: Id, key: Key, subject: string) returns (job: Job)
      requires Valid() && id !in jobs && forall a | a in jobs :: !(jobs[a].key == key && jobs[a].state.Running?)
      modifies this
      ensures Valid() && jobs == old(jobs)[id := job] && fresh(job) && job.id == id
      ensures job.Value() == JobValue(key, subject, Running, 0)
    {
      job := new Job(id, key, subject);
      jobs := jobs[id := job];
    }

    /** Looks a job up for its owner; stores that evict on reading forget an
        expired one instead. */
    method Get(id: Id, key: Key, now: nat, evicts: bool) returns (job: Job?)
      requires Valid()
      modifies this
      ensures Valid()
      ensures job != null <==> id in old(jobs) && old(jobs)[id].key == key
                               && !(evicts && old(jobs)[id].Value().Expired(now))
      ensures job != null ==> job == old(jobs)[id]
      ensures jobs == if id in old(jobs) && old(jobs)[id].key == key && evicts && old(jobs)[id].Value().Expired(now)
                      then old(jobs) - {id} else old(jobs)
    {
      if id !in jobs || jobs[id].key != key {
        return null;
      }
      if evicts && jobs[id].finishedAt != 0 && now - jobs[id].finishedAt > RETENTION {
        jobs := jobs - {id};
        return null;
      }
      return jobs[id];
    }

    method Expire(now: nat)
      requires Valid()
      modifies this
      ensures Valid()
      ensures jobs == map id | id in old(jobs) && !old(jobs)[id].Value().Expired(now) :: old(jobs)[id]
      ensures forall id | id in old(jobs) ::
                var finishedAt := old(jobs)[id].finishedAt;
                id !in jobs <==> finishedAt != 0 && now > finishedAt + 60 * 60 * 1_000_000_000
    {
      var pending := jobs.Keys;
      while pending != {}
        invariant pending <= jobs.Keys <= old(jobs).Keys
        invariant jobs == map id | id in old(jobs) && (id in pending || !old(jobs)[id].Value().Expired(now)) ::
                            old(jobs)[id]
      {
        var next :| next in pending;
        pending := pending - {next};
        if jobs[next].finishedAt != 0 && now - jobs[next].finishedAt > RETENTION {
          jobs := jobs - {next};
        }
      }
    }
  }

  // ----- Everything at once

  /** A job with the calls still about to close its channel. */
  datatype Tracked = Tracked(job: JobValue, closing: nat, closes: nat)

  /** What the holder of the store's lock is doing. Job locks are taken one at a
      time, so jobs finish while a creation or an expiry is under way. */
  datatype Lock =
    | Free
    | Creating(id: Id, key: Key, subject: string, now: nat)
    | Expiring(now: nat)

  /** All jobs ever created, those the store lists, its lock, and the jobs the
      holder of the lock has yet to look at. */
  datatype System = System(jobs: map<Id, Tracked>, listed: set<Id>, lock: Lock, pending: set<Id>) {

    /** At most one running job per key, and the store knows every running job. */
    ghost predicate Unique() {
      && (forall id | id in jobs && jobs[id].job.state.Running? :: id in listed)
      && (forall a, b | a in jobs && b in jobs && jobs[a].job.state.Running? && jobs[b].job.state.Running?
                        && jobs[a].job.key == jobs[b].job.key :: a == b)
    }

    /** Only jobs that ended have a time or a closed channel. */
    ghost predicate Ended() {
      forall id | id in jobs ::
        && (jobs[id].job.state.Running? <==> jobs[id].job.finishedAt == 0)
        && jobs[id].closes <= 1
        && (jobs[id].closing + jobs[id].closes > 0 ==> !jobs[id].job.state.Running?)
    }

    /** A creation has not passed a running job of its key. */
    ghost predicate Searching() {
      && pending <= listed <= jobs.Keys && (lock.Free? ==> pending == {})
      && (lock.Creating? ==> lock.id !in jobs && forall a | a in listed - pending :: !jobs[a].job.Blocks(lock.key))
    }

    ghost predicate Inv() {
      Unique() && Ended() && Searching()
    }
  }

  /** The steps of the goroutines that use a store, finely enough to interleave. */
  datatype Step =
    | BeginCreate(id: Id, key: Key, subject: string, now: nat)
    | Visit(id: Id)
    | EndCreate
    | BeginExpire(now: nat)
    | EndExpire
    | Read(id: Id, key: Key, now: nat, evicts: bool)
    | Finish(id: Id, outcome: State, now: nat)
    | Close(id: Id)

  /** What a step tells its caller, if it ends a call. */
  datatype Reply = Silent | Answered(answer: Answer, key: Key)

  ghost predicate Does(step: Step, s: System, s': System, joins: (string, string) -> bool,
                       reply: Reply)
  {
    match step
    case BeginCreate(id, key, subject, now) =>
      && s.lock.Free? && id !in s.jobs && reply == Silent
      && s' == s.(lock := Creating(id, key, subject, now), pending := s.listed)
    case Visit(id) =>
      && !s.lock.Free? && id in s.pending && id in s.jobs
      && if s.lock.Creating? && s.jobs[id].job.Blocks(s.lock.key) then
           && s' == s.(lock := Free, pending := {})
           && reply == Answered(if joins(s.jobs[id].job.subject, s.lock.subject) then Joined(id) else Busy, s.lock.key)
         else
           && reply == Silent
           && s' == s.(pending := s.pending - {id},
                       listed := if s.jobs[id].job.Expired(s.lock.now) then s.listed - {id} else s.listed)
    case EndCreate =>
      && s.lock.Creating? && s.pending == {} && reply == Answered(Answer.Fresh(s.lock.id), s.lock.key)
      && s' == System(s.jobs[s.lock.id := Tracked(JobValue(s.lock.key, s.lock.subject, Running, 0), 0, 0)],
                      s.listed + {s.lock.id}, Free, {})
    case BeginExpire(now) =>
      s.lock.Free? && reply == Silent && s' == s.(lock := Expiring(now), pending := s.listed)
    case EndExpire =>
      s.lock.Expiring? && s.pending == {} && reply == Silent && s' == s.(lock := Free)
    case Read(id, key, now, evicts) =>
      && s.lock.Free? && reply == Silent
      && s' == if id in s.listed && id in s.jobs && s.jobs[id].job.key == key && evicts && s.jobs[id].job.Expired(now)
               then s.(listed := s.listed - {id}) else s
    case Finish(id, outcome, now) =>
      && id in s.jobs && !outcome.Running? && now > 0 && reply == Silent
      && s' == s.(jobs := s.jobs[id := Tracked(s.jobs[id].job.Finish(outcome, now),
                                               s.jobs[id].closing + 1, s.jobs[id].closes)])
    case Close(id) =>
      && id in s.jobs && s.jobs[id].closing > 0 && reply == Silent
      && s' == s.(jobs := s.jobs[id := Tracked(s.jobs[id].job, s.jobs[id].closing - 1,
                                               if s.jobs[id].closes == 0 then 1 else s.jobs[id].closes)])
  }

  lemma StepKeepsUnique(step: Step, s: System, s': System, joins: (string, string) -> bool, reply: Reply)
    requires s.Inv() && Does(step, s, s', joins, reply)
    ensures s'.Unique()
  {
  }

  lemma StepKeepsEnded(step: Step, s: System, s': System, joins: (string, string) -> bool, reply: Reply)
    requires s.Ended() && Does(step, s, s', joins, reply)
    ensures s'.Ended()
  {
  }

  lemma StepKeepsSearching(step: Step, s: System, s': System, joins: (string, string) -> bool, reply: Reply)
    requires s.Searching() && Does(step, s, s', joins, reply)
    ensures s'.Searching()
  {
  }

  /** Every step keeps the invariant; no finished job changes its outcome, its
      time or its keys, and no running job is forgotten. */
  lemma StepKeepsInv(step: Step, s: System, s': System, joins: (string, string) -> bool, reply: Reply)
    requires s.Inv() && Does(step, s, s', joins, reply)
    ensures s'.Inv()
    ensures forall id | id in s.jobs :: id in s'.jobs && s'.jobs[id].closes >= s.jobs[id].closes
                        && (!s.jobs[id].job.state.Running? || s'.jobs[id].job.state.Running? ==>
                              s'.jobs[id].job == s.jobs[id].job)
                        && s'.jobs[id].job.key == s.jobs[id].job.key
    ensures forall id | id in s.listed && id !in s'.listed :: !s.jobs[id].job.state.Running?
  {
    StepKeepsUnique(step, s, s', joins, reply);
    StepKeepsEnded(step, s, s', joins, reply);
    StepKeepsSearching(step, s, s', joins, reply);
  }

  /** The answer to a request is decided by the jobs running at the moment it is
      given, never by the order in which the store looked at them. */
  lemma AnswerReflectsRunningJobs(step: Step, s: System, s': System,
                                  joins: (string, string) -> bool, reply: Reply)
    requires s.Inv() && Does(step, s, s', joins, reply) && reply.Answered?
    ensures forall a | a in s.jobs && s.jobs[a].job.key == reply.key && s.jobs[a].job.state.Running? ::
              reply.answer == (if joins(s.jobs[a].job.subject, s.lock.subject) then Joined(a) else Busy)
              && s'.jobs == s.jobs
    ensures (forall a | a in s.jobs :: !(s.jobs[a].job.key == reply.key && s.jobs[a].job.state.Running?)) ==>
              && reply.answer.Fresh? && reply.answer.id !in s.jobs && reply.answer.id in s'.jobs
              && s'.jobs[reply.answer.id].job == JobValue(reply.key, s.lock.subject, Running, 0)
  {
  }

  /** A run: the states it passes and, between them, steps and their replies. */
  datatype Run = Run(states: seq<System>, steps: seq<Step>, replies: seq<Reply>) {

    ghost predicate Valid(joins: (string, string) -> bool) {
      && |states| == |steps| + 1 && |replies| == |steps|
      && states[0] == System(map[], {}, Free, {})
      && forall i | 0 <= i < |steps| :: Does(steps[i], states[i], states[i + 1], joins, replies[i])
    }
  }

  lemma {:induction false} RunKeepsInv(run: Run, joins: (string, string) -> bool, i: nat)
    requires run.Valid(joins) && i < |run.states|
    ensures run.states[i].Inv()
  {
    if i > 0 {
      RunKeepsInv(run, joins, i - 1);
      StepKeepsInv(run.steps[i - 1], run.states[i - 1], run.states[i], joins, run.replies[i - 1]);
    }
  }

  /** At any two moments of any interleaving: a job that had ended still has the
      same outcome, time and key; a job that runs has been running all along and the
      store still lists it, alone for its key; and a channel that was closed, once,
      belongs to an ended job and is not closed again. */
  lemma {:induction false} JobsEndOnce(run: Run, joins: (string, string) -> bool, i: nat, j: nat, id: Id)
    requires run.Valid(joins) && i <= j < |run.states| && id in run.states[i].jobs
    ensures id in run.states[j].jobs
    ensures var (was, now) := (run.states[i].jobs[id], run.states[j].jobs[id]);
            && (!was.job.state.Running? ==> now.job == was.job)
            && (now.job.state.Running? ==> was.job == now.job && id in run.states[i].listed * run.states[j].listed)
            && was.closes <= now.closes <= 1 && (now.closes == 1 ==> !now.job.state.Running?)
            && was.job.key == now.job.key
    ensures forall other | other in run.states[j].jobs && run.states[j].jobs[other].job.state.Running?
                           && run.states[j].jobs[other].job.key == run.states[j].jobs[id].job.key
                           && run.states[j].jobs[id].job.state.Running? :: other == id
    decreases j
  {
    RunKeepsInv(run, joins, i);
    RunKeepsInv(run, joins, j);
    if i < j {
      JobsEndOnce(run, joins, i, j - 1, id);
      RunKeepsInv(run, joins, j - 1);
      StepKeepsInv(run.steps[j - 1], run.states[j - 1], run.states[j], joins, run.replies[j - 1]);
    }
  }

  predicate Finishes(step: Step, id: Id) {
    step.Finish? && step.id == id
  }

  /** A job that is not there yet has not been finished. */
  lemma NotThereNotFinished(run: Run, joins: (string, string) -> bool, j: nat, id: Id)
    requires run.Valid(joins) && j < |run.states| && id !in run.states[j].jobs
    ensures forall k | 0 <= k < j :: !Finishes(run.steps[k], id)
  {
    forall k | 0 <= k < j ensures !Finishes(run.steps[k], id) {
      if Finishes(run.steps[k], id) {
        assert Does(run.steps[k], run.states[k], run.states[k + 1], joins, run.replies[k]);
        JobsEndOnce(run, joins, k, j, id);
        assert false;
      }
    }
  }

  lemma OnlyFinishEnds(step: Step, s: System, s': System, joins: (string, string) -> bool, reply: Reply, id: Id)
    requires s.Inv() && Does(step, s, s', joins, reply) && id in s.jobs
    ensures id in s'.jobs
    ensures s'.jobs[id].job.state.Running? <==> s.jobs[id].job.state.Running? && !Finishes(step, id)
  {
  }

  /** In any run a job is running exactly as long as nothing finished it. */
  lemma {:induction false} RunningUntilFinished(run: Run, joins: (string, string) -> bool, j: nat, id: Id)
    requires run.Valid(joins) && j < |run.states| && id in run.states[j].jobs
    ensures run.states[j].jobs[id].job.state.Running? <==> forall k | 0 <= k < j :: !Finishes(run.steps[k], id)
  {
    if j > 0 {
      var last := run.steps[j - 1];
      assert Does(last, run.states[j - 1], run.states[j], joins, run.replies[j - 1]);
      if id in run.states[j - 1].jobs {
        RunningUntilFinished(run, joins, j - 1, id);
        RunKeepsInv(run, joins, j - 1);
        OnlyFinishEnds(last, run.states[j - 1], run.states[j], joins, run.replies[j - 1], id);
      } else {
        NotThereNotFinished(run, joins, j - 1, id);
      }
      assert (forall k | 0 <= k < j :: !Finishes(run.steps[k], id)) <==>
             !Finishes(last, id) && forall k | 0 <= k < j - 1 :: !Finishes(run.steps[k], id);
    }
  }

  /** And an ended job shows the outcome and the time of the first one that did. */
  lemma {:induction false} FirstFinishCounts(run: Run, joins: (string, string) -> bool, j: nat, id: Id, k: nat)
    requires run.Valid(joins) && k < j < |run.states| && id in run.states[j].jobs && Finishes(run.steps[k], id)
    requires forall m | 0 <= m < k :: !Finishes(run.steps[m], id)
    ensures run.states[j].jobs[id].job.state == run.steps[k].outcome
    ensures run.states[j].jobs[id].job.finishedAt == run.steps[k].now
  {
    assert Does(run.steps[k], run.states[k], run.states[k + 1], joins, run.replies[k]);
    RunningUntilFinished(run, joins, k, id);
    JobsEndOnce(run, joins, k + 1, j, id);
  }
}
