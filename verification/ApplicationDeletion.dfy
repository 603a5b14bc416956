/** The deletion of an application: destructive operations and the checkpoints
    between them, interrupted anywhere and resumed from the last checkpoint
    (internal/service/applications.go, internal/handler/application_delete_job.go). */
module ApplicationDeletion {
  import opened Basics
  import JobStores
  import opened DeleteProgress
  import opened RegistryTree

  /** A step by its place, the retired stage that old checkpoints may hold, or the
      end. */
  datatype Stage = Step(place: nat) | Keys | Finished {

    predicate Valid() {
      Step? ==> place < STEPS
    }

    /** The stages in the order they are taken. */
    function Rank(): nat {
      match this
      case Step(place) => if place == 4 then 5 else place
      case Keys => 4
      case Finished => 6
    }

    function Next(): Stage {
      match this
      case Step(place) => if place == 4 then Finished else Step(place + 1)
      case Keys => Step(4)
      case Finished => Finished
    }

    /** The first step that still has to be done. */
    function Pending(): nat {
      match this
      case Step(place) => place
      case Keys => 4
      case Finished => 5
    }

    function Text(): string {
      match this
      case Step(place) => StageAt(place)
      case Keys => "keys"
      case Finished => "complete"
    }
  }

  type Status = JobStores.State

  function StatusText(status: Status): string {
    match status
    case Running => "running"
    case Failed => "failed"
    case Complete => "complete"
  }

  /** What survives a crash: the checkpoint and the operations performed so far. */
  datatype Durable = Durable(stage: Stage, status: Status, performed: seq<nat>) {

    ghost predicate Valid() {
      && stage.Valid()
      && (stage.Finished? <==> status.Complete?)
    }

    function Checkpoint(): Intent {
      Intent(stage.Text(), StatusText(status))
    }

    /** Nothing was performed before everything it depends on, and a checkpoint
        vouches for all stages before it. */
    ghost predicate Sound() {
      && Valid()
      && (forall p | 0 <= p < stage.Pending() :: p in performed)
      && (forall i | 0 <= i < |performed| :: performed[i] < STEPS)
      && (forall i, p | 0 <= i < |performed| && 0 <= p < performed[i] :: p in performed[..i])
    }
  }

  /** An operation is performed in its own stage; a checkpoint is kept, or moves on
      once its operation was performed. */
  ghost predicate Advances(a: Durable, b: Durable) {
    && !a.stage.Finished?
    && (|| (a.stage.Step? && b == a.(performed := a.performed + [a.stage.place]))
        || (!b.status.Complete? && b == a.(status := b.status))
        || ((a.stage.Step? ==> a.stage.place in a.performed)
            && b.stage == a.stage.Next() && b.performed == a.performed
            && b.status == if b.stage.Finished? then JobStores.Complete else JobStores.Running))
  }

  ghost predicate Chain(history: seq<Durable>) {
    forall i | 0 <= i < |history| - 1 :: Advances(history[i], history[i + 1])
  }

  lemma AdvanceKeepsSound(a: Durable, b: Durable)
    requires a.Sound() && Advances(a, b)
    ensures b.Sound() && a.stage.Rank() <= b.stage.Rank() && a.performed <= b.performed
  {
    if b.performed != a.performed {
      assert b.performed[..|a.performed|] == a.performed;
      forall i, p | 0 <= i < |b.performed| && 0 <= p < b.performed[i] ensures p in b.performed[..i] {
        assert i < |a.performed| ==> b.performed[..i] == a.performed[..i];
      }
    }
  }

  /** Through any number of attempts and crashes the operations are performed in
      order, none before all earlier ones, the checkpoint never goes back, and a
      finished deletion has performed them all. */
  lemma {:induction false} DeletionInOrder(history: seq<Durable>, i: nat, j: nat)
    requires Chain(history) && i <= j < |history| && history[0].Sound()
    ensures history[i].Sound() && history[j].Sound()
    ensures history[i].stage.Rank() <= history[j].stage.Rank() && history[i].performed <= history[j].performed
    ensures history[j].stage.Finished? ==> forall p | 0 <= p < STEPS :: p in history[j].performed
    decreases i + j
  {
    if i < j {
      DeletionInOrder(history, i, j - 1);
      AdvanceKeepsSound(history[j - 1], history[j]);
    } else if j > 0 {
      DeletionInOrder(history, j - 1, j - 1);
      AdvanceKeepsSound(history[j - 1], history[j]);
    }
  }

  lemma ChainGrows(history: seq<Durable>, b: Durable)
    requires Chain(history) && history != [] && Advances(history[|history| - 1], b)
    ensures Chain(history + [b])
  {
  }

  // ----- What the job is told

  /** The stage last reported when stages from one rank to another were entered: the
      first one comes from the handler, routing and the retired stage are silent. */
  function Reported(first: nat, reached: nat): nat {
    if first <= 5 <= reached then 4
    else if first <= 2 <= reached then 2
    else if first <= 1 <= reached then 1
    else 0
  }

  /** The same when the reached stage has not been reported yet. */
  function ShownBefore(first: nat, reached: nat): nat {
    if reached == 0 then 0 else if first < reached then Reported(first, reached - 1) else 0
  }

  /** The status of the checkpoint that ends a stage. */
  function AfterStage(stage: Stage): Status
    requires stage.Valid()
  {
    if stage.Next().Finished? then JobStores.Complete else JobStores.Running
  }

  function Showing(place: nat): Progress {
    Progress(JobStores.Running, StepName(place), Blank, StepsAt(place, Active))
  }

  lemma UpdateMovesOn(from: nat, to: nat)
    requires from <= to < STEPS
    ensures Showing(from).Updated(StageAt(to)) == Showing(to)
  {
  }

  lemma FailureShows(place: nat)
    requires place < STEPS
    ensures Showing(place).FailedNow() ==
            Progress(JobStores.Failed, StepName(place), StepName(place), StepsAt(place, StepState.Failed))
  {
    var steps := StepsAt(place, Active);
    assert steps[place].Active? && FirstActive(steps) == place;
    assert steps[place := StepState.Failed] == StepsAt(place, StepState.Failed);
  }

  lemma CompletionShows(place: nat)
    requires place < STEPS
    ensures Showing(place).Completed() == Progress(JobStores.Complete, Done, Blank, StepsAt(STEPS, StepState.Complete))
  {
  }

  lemma TextsAreTrimmed(stage: Stage)
    requires stage.Valid()
    ensures TrimSpace(stage.Text()) == stage.Text()
    ensures stage.Text() == "complete" <==> stage.Finished?
    ensures IndexOf(stage.Text()) == if stage.Step? then stage.place else STEPS
  {
    if stage.Step? {
      KnownStagesAreTrimmed(StageAt(stage.place));
    }
  }

  lemma StatusesDiffer(status: Status)
    ensures StatusText(status) == "complete" <==> status.Complete?
    ensures StatusText(status) == "failed" <==> status.Failed?
  {
  }

  lemma IntentShows(intent: Intent, stage: Stage, status: Status)
    requires stage.Valid() && (stage.Finished? <==> status.Complete?)
    requires TrimSpace(intent.stage) == intent.stage
    requires intent.stage == "complete" <==> stage.Finished?
    requires IndexOf(intent.stage) == if stage.Step? then stage.place else STEPS
    requires (intent.state == "complete" <==> status.Complete?) && (intent.state == "failed" <==> status.Failed?)
    ensures var place := if stage.Step? then stage.place else 0;
            Rebuilt(intent) ==
              match status
              case Running => Showing(place)
              case Failed =>
                Progress(JobStores.Failed, StepName(place), StepName(place), StepsAt(place, StepState.Failed))
              case Complete => Progress(JobStores.Complete, Done, Blank, StepsAt(STEPS, StepState.Complete))
  {
  }

  /** The checkpoint's page against the job's after either outcome. */
  lemma OutcomeShows(d: Durable, shown: nat)
    requires d.Valid() && shown < STEPS
    ensures Showing(shown).FailedNow().state == JobStores.Failed
    ensures Showing(shown).FailedNow() == Rebuilt(d.Checkpoint()) <==>
            d.status.Failed? && shown == if d.stage.Step? then d.stage.place else 0
    ensures Showing(shown).Completed() == Rebuilt(d.Checkpoint()) <==> d.status.Complete?
  {
    FailureShows(shown);
    CompletionShows(shown);
    TextsAreTrimmed(d.stage);
    StatusesDiffer(d.status);
    IntentShows(d.Checkpoint(), d.stage, d.status);
  }

  /** Only routing is entered without a report that shows it. */
  lemma SilentStages(first: Stage, reached: Stage)
    requires first.Valid() && reached.Valid() && !reached.Finished?
    requires first.Rank() <= reached.Rank() && (reached.Keys? ==> first.Keys?)
    ensures Reported(first.Rank(), reached.Rank()) == (if reached.Step? then reached.place else 0) <==>
            reached != Step(3)
  {
  }

  // ----- The first call that fails

  /** The steps from one place up to another, and to the end. */
  function StepsBetween(from: nat, to: nat): seq<nat>
    requires from <= to
  {
    seq(to - from, i requires 0 <= i => from + i)
  }

  function StepsFrom(from: nat): seq<nat>
    requires from <= STEPS
  {
    StepsBetween(from, STEPS)
  }

  /** The resources stage records its start; every stage but the retired one has an
      operation; and every stage ends with the next checkpoint. */
  datatype Kind = Opening | Operation | Checkpoint

  datatype Failure = Failure(stage: Stage, kind: Kind, call: nat)

  /** The step the job shows when it is over. */
  function LastShown(first: Stage, gate: Gate, reached: Stage): nat {
    if gate.Passed? && !first.Finished? then Reported(first.Rank(), reached.Rank()) else 0
  }

  /** The first of the calls a workflow makes from a stage on that fails, if any. */
  function FirstFailure(stage: Stage, works: nat -> bool, call: nat): Option<Failure>
    requires stage.Valid()
    decreases 6 - stage.Rank()
  {
    match stage
    case Finished => None
    case Keys =>
      if works(call) then FirstFailure(Step(4), works, call + 1) else Some(Failure(Keys, Kind.Checkpoint, call))
    case Step(place) =>
      var operation := if place == 1 then call + 1 else call;
      if place == 1 && !works(call) then Some(Failure(stage, Opening, call))
      else if !works(operation) then Some(Failure(stage, Operation, operation))
      else if !works(operation + 1) then Some(Failure(stage, Kind.Checkpoint, operation + 1))
      else FirstFailure(stage.Next(), works, operation + 2)
  }

  lemma {:induction false} FailureIsLater(stage: Stage, works: nat -> bool, call: nat)
    requires stage.Valid()
    ensures var f := FirstFailure(stage, works, call);
            f.Some? ==>
              && f.value.stage.Valid() && !f.value.stage.Finished?
              && stage.Rank() <= f.value.stage.Rank() && (f.value.stage.Keys? ==> stage.Keys?)
    decreases 6 - stage.Rank()
  {
    match stage
    case Finished =>
    case Keys => FailureIsLater(Step(4), works, call + 1);
    case Step(place) => FailureIsLater(stage.Next(), works, if place == 1 then call + 3 else call + 2);
  }

  lemma {:induction false} ReliableNeverFails(stage: Stage, works: nat -> bool, call: nat)
    requires stage.Valid() && forall n: nat :: works(n)
    ensures FirstFailure(stage, works, call).None?
    decreases 6 - stage.Rank()
  {
    match stage
    case Finished =>
    case Keys => ReliableNeverFails(Step(4), works, call + 1);
    case Step(place) => ReliableNeverFails(stage.Next(), works, if place == 1 then call + 3 else call + 2);
  }

  /** The status at the end: failed if a failing operation was recorded, as it was
      before if nothing was recorded at all, and otherwise running. */
  function StatusLeft(before: Durable, f: Failure, works: nat -> bool): Status {
    if f.kind.Operation? && works(f.call + 1) then JobStores.Failed
    else if f.stage == before.stage && (f.kind.Opening? || f.stage != Step(1)) then before.status
    else JobStores.Running
  }

  /** What a workflow makes of a deletion: it performs what is left, once and in order,
      or stops where the first call fails. */
  ghost predicate Outcome(before: Durable, works: nat -> bool, call: nat, after: Durable)
    requires before.stage.Valid()
  {
    match FirstFailure(before.stage, works, call)
    case None => after.stage.Finished? && after.performed == before.performed + StepsFrom(before.stage.Pending())
    case Some(f) => after.stage == f.stage && after.status == StatusLeft(before, f, works)
  }

  /** No call of the stage failed. */
  ghost predicate Passes(before: Durable, works: nat -> bool, call: nat, after: Durable, call': nat)
    requires before.stage.Valid() && after.stage.Valid()
  {
    && after.stage == before.stage.Next() && after.status == AfterStage(before.stage)
    && after.performed + StepsFrom(after.stage.Pending()) == before.performed + StepsFrom(before.stage.Pending())
    && FirstFailure(after.stage, works, call') == FirstFailure(before.stage, works, call)
  }

  /** A call of the stage failed. */
  ghost predicate Stops(before: Durable, works: nat -> bool, call: nat, after: Durable)
    requires before.stage.Valid()
  {
    && after.stage == before.stage && FirstFailure(before.stage, works, call).Some?
    && Outcome(before, works, call, after)
  }

  /** A stage that was passed takes the outcome to the next one. */
  lemma OutcomeGoesOn(before: Durable, call: nat, middle: Durable, call': nat, works: nat -> bool, after: Durable)
    requires before.Valid() && middle.Valid() && !before.stage.Finished?
    requires Passes(before, works, call, middle, call') && Outcome(middle, works, call', after)
    ensures Outcome(before, works, call, after)
  {
    FailureIsLater(middle.stage, works, call');
  }

  /** Whether the job and the checkpoint show the same after a request, from what is
      known before it. */
  ghost predicate PagesAgree(before: Durable, gate: Gate, released: bool, works: nat -> bool, call: nat)
    requires before.stage.Valid()
  {
    if gate.Refused? then before.status.Failed? && before.stage in {Step(0), Keys}
    else if before.stage.Finished? then true
    else if gate.Busy? then (works(call) || before.status.Failed?) && before.stage in {Step(0), Keys}
    else
      match FirstFailure(before.stage, works, call)
      case None => released
      case Some(f) => f.stage != Step(3) && StatusLeft(before, f, works).Failed?
  }

  // ----- The workflow

  /** How far a request gets before the workflow: it is refused without a trace, or
      its leases are busy, which is recorded. */
  datatype Gate = Refused | Busy | Passed

  class Deletion {
    var stage: Stage
    var status: Status
    var performed: seq<nat>
    /** Whether the n-th call to the database, Docker, Caddy or the file system
        succeeds. */
    const works: nat -> bool
    var calls: nat
    /** Every state a crash could have left. */
    ghost var history: seq<Durable>

    constructor (durable: Durable, works: nat -> bool)
      requires durable.Sound()
      ensures Valid() && Now() == durable && history == [durable] && this.works == works && calls == 0
    {
      stage, status, performed := durable.stage, durable.status, durable.performed;
      this.works, calls := works, 0;
      history := [durable];
    }

    /** The request finds the recorded intent, or records the first checkpoint before it
        looks at anything else. */
    constructor Begin(recorded: Option<Durable>, works: nat -> bool)
      requires recorded.Some? ==> recorded.value.Sound()
      ensures Valid() && this.works == works && calls == 0
      ensures Now() == if recorded.Some? then recorded.value else Durable(Step(0), JobStores.Running, [])
    {
      var durable := if recorded.Some? then recorded.value else Durable(Step(0), JobStores.Running, []);
      stage, status, performed := durable.stage, durable.status, durable.performed;
      this.works, calls := works, 0;
      history := [durable];
    }

    function Now(): Durable
      reads this
    {
      Durable(stage, status, performed)
    }

    /** What will have been performed if nothing fails any more. */
    function Outlook(): seq<nat>
      reads this
      requires stage.Valid()
    {
      performed + StepsFrom(stage.Pending())
    }

    ghost predicate Valid()
      reads this
    {
      && Now().Valid() && history != [] && history[0].Sound()
      && Chain(history) && history[|history| - 1] == Now()
    }

    ghost predicate Reliable() {
      forall n: nat :: works(n)
    }

    method Perform(place: nat) returns (ok: bool)
      requires Valid() && stage == Step(place)
      modifies this
      ensures Valid() && old(history) <= history
      ensures Now() == if ok then old(Now()).(performed := old(performed) + [place]) else old(Now())
      ensures ok == works(old(calls)) && calls == old(calls) + 1
    {
      ok := works(calls);
      calls := calls + 1;
      if ok {
        performed := performed + [place];
        ChainGrows(history, Now());
        history := history + [Now()];
      }
    }

    method Record(next: Stage, nextStatus: Status) returns (ok: bool)
      requires Valid() && Advances(Now(), Durable(next, nextStatus, performed))
      modifies this
      ensures Valid() && old(history) <= history
      ensures Now() == if ok then Durable(next, nextStatus, old(performed)) else old(Now())
      ensures ok == works(old(calls)) && calls == old(calls) + 1
    {
      ok := works(calls);
      calls := calls + 1;
      if ok {
        stage, status := next, nextStatus;
        ChainGrows(history, Now());
        history := history + [Now()];
      }
    }

    /** One stage: the operation, then the next checkpoint; a failed operation is
        recorded as such. */
    method TakeStage() returns (ok: bool)
      requires Valid() && stage.Step?
      modifies this
      ensures Valid() && old(history) <= history
      ensures ok == (works(old(calls)) && works(old(calls) + 1)) && calls == old(calls) + 2
      ensures ok ==> Now() == Durable(old(stage).Next(), AfterStage(old(stage)), old(performed) + [old(stage).place])
      ensures !ok && works(old(calls)) ==> Now() == old(Now()).(performed := old(performed) + [old(stage).place])
      ensures !works(old(calls)) ==>
                Now() == old(Now()).(status := if works(old(calls) + 1) then JobStores.Failed else old(status))
      ensures ok ==> Outlook() == old(Outlook())
    {
      var place := stage.place;
      ok := Perform(place);
      if !ok {
        var _ := Record(stage, JobStores.Failed);
        return;
      }
      assert [place] + StepsFrom(stage.Next().Pending()) == StepsFrom(place);
      ok := Record(stage.Next(), AfterStage(stage));
    }

    /** Three of the stages are reported when they are entered. */
    method Report(job: DeleteJob, ghost first: nat)
      requires stage.Valid() && !stage.Finished? && first <= stage.Rank() && (stage.Keys? ==> first == 4)
      requires job.Value() == Showing(ShownBefore(first, stage.Rank()))
      modifies job
      ensures job.Value() == Showing(Reported(first, stage.Rank()))
    {
      if stage == Step(1) || stage == Step(2) || stage == Step(4) {
        UpdateMovesOn(ShownBefore(first, stage.Rank()), stage.place);
        job.Update(StageAt(stage.place));
      }
    }

    /** A stage, and before the operation of its own the record that the resources are
        being removed. */
    method PassStage() returns (ok: bool)
      requires Valid() && !stage.Finished?
      modifies this
      ensures Valid() && old(history) <= history
      ensures ok ==> Passes(old(Now()), works, old(calls), Now(), calls)
      ensures !ok ==> Stops(old(Now()), works, old(calls), Now())
    {
      if stage == Keys {
        ok := Record(Step(4), JobStores.Running);
        return;
      }
      if stage == Step(1) {
        ok := Record(stage, JobStores.Running);
        if !ok { return; }
      }
      ok := TakeStage();
    }

    method EnterStage(job: DeleteJob, ghost first: nat) returns (ok: bool)
      requires Valid() && !stage.Finished? && first <= stage.Rank() && (stage.Keys? ==> first == 4)
      requires job.Value() == Showing(ShownBefore(first, stage.Rank()))
      modifies this, job
      ensures Valid() && old(history) <= history
      ensures job.Value() == Showing(Reported(first, old(stage).Rank()))
      ensures ok ==> Passes(old(Now()), works, old(calls), Now(), calls)
      ensures !ok ==> Stops(old(Now()), works, old(calls), Now())
    {
      Report(job, first);
      ok := PassStage();
    }

    /** Takes up the deletion at its checkpoint. It ends well exactly if none of its
        calls fails; what it leaves is told by the first one that does. */
    method Resume(job: DeleteJob) returns (ok: bool)
      requires Valid() && job.Value() == Showing(0)
      modifies this, job
      ensures Valid() && old(history) <= history
      ensures ok <==> FirstFailure(old(stage), works, old(calls)).None?
      ensures Outcome(old(Now()), works, old(calls), Now())
      ensures job.Value() == Showing(Reported(old(stage).Rank(), stage.Rank()))
    {
      ghost var first := stage.Rank();
      if stage.Finished? {
        return true;
      }
      if stage == Step(0) {
        ok := EnterStage(job, first);
        if !ok { return; }
      }
      ghost var middle, call := Now(), calls;
      ok := ResumeAfterSchedules(job, first);
      if first == 0 {
        OutcomeGoesOn(old(Now()), old(calls), middle, call, works, Now());
      }
    }

    /** The stages of a resumption after the schedules are disabled. */
    method ResumeAfterSchedules(job: DeleteJob, ghost first: nat) returns (ok: bool)
      requires Valid() && stage.Rank() == (if first <= 1 then 1 else first) <= 5
      requires job.Value() == Showing(0)
      modifies this, job
      ensures Valid() && old(history) <= history
      ensures ok <==> FirstFailure(old(stage), works, old(calls)).None?
      ensures Outcome(old(Now()), works, old(calls), Now())
      ensures job.Value() == Showing(Reported(first, stage.Rank()))
    {
      if stage == Step(1) {
        ok := EnterStage(job, first);
        if !ok { return; }
      }
      ghost var middle, call := Now(), calls;
      ok := ResumeAfterResources(job, first);
      if first <= 1 {
        OutcomeGoesOn(old(Now()), old(calls), middle, call, works, Now());
      }
    }

    /** The stages after the Docker resources are gone. */
    method ResumeAfterResources(job: DeleteJob, ghost first: nat) returns (ok: bool)
      requires Valid() && stage.Rank() == (if first <= 2 then 2 else first) <= 5
      requires job.Value() == Showing(ShownBefore(first, stage.Rank()))
      modifies this, job
      ensures Valid() && old(history) <= history
      ensures ok <==> FirstFailure(old(stage), works, old(calls)).None?
      ensures Outcome(old(Now()), works, old(calls), Now())
      ensures job.Value() == Showing(Reported(first, stage.Rank()))
    {
      if stage == Step(2) {
        ok := EnterStage(job, first);
        if !ok { return; }
      }
      ghost var middle, call := Now(), calls;
      ok := ResumeAfterMetadata(job, first);
      if first <= 2 {
        OutcomeGoesOn(old(Now()), old(calls), middle, call, works, Now());
      }
    }

    /** The stages after the application's metadata are gone. */
    method ResumeAfterMetadata(job: DeleteJob, ghost first: nat) returns (ok: bool)
      requires Valid() && stage.Rank() == (if first <= 3 then 3 else first) <= 5
      requires job.Value() == Showing(ShownBefore(first, stage.Rank()))
      modifies this, job
      ensures Valid() && old(history) <= history
      ensures ok <==> FirstFailure(old(stage), works, old(calls)).None?
      ensures Outcome(old(Now()), works, old(calls), Now())
      ensures job.Value() == Showing(Reported(first, stage.Rank()))
    {
      if stage == Step(3) || stage == Keys {
        ok := EnterStage(job, first);
        if !ok { return; }
      }
      ghost var middle, call := Now(), calls;
      ok := EnterStage(job, first);
      if first <= 4 {
        OutcomeGoesOn(old(Now()), old(calls), middle, call, works, Now());
      }
    }

    method Delete(job: DeleteJob, gate: Gate, released: bool) returns (ok: bool)
      requires Valid() && job.Value() == Showing(0)
      modifies this, job
      ensures Valid() && old(history) <= history
      ensures gate.Refused? ==> !ok && Now() == old(Now())
      ensures gate.Busy? && !old(stage).Finished? ==>
                !ok && Now() == old(Now()).(status := if works(old(calls)) then JobStores.Failed else old(status))
      ensures gate.Passed? && !old(stage).Finished? ==>
                && (ok <==> FirstFailure(old(stage), works, old(calls)).None? && released)
                && Outcome(old(Now()), works, old(calls), Now())
      ensures !gate.Refused? && old(stage).Finished? ==> ok && Now() == old(Now())
      ensures job.Value() == Showing(LastShown(old(stage), gate, stage))
    {
      if gate.Refused? {
        return false;
      }
      if stage.Finished? {
        return true;
      }
      if gate.Busy? {
        var _ := Record(stage, JobStores.Failed);
        return false;
      }
      ok := Resume(job);
      ok := ok && released;
    }

    /** The whole request: the first report, the gate, the workflow, the release of its
        leases, and the outcome. Whether the job and the checkpoint then show the same is
        told from what was known before. */
    method RunJob(job: DeleteJob, gate: Gate, released: bool) returns (ok: bool)
      requires Valid() && job.Value() == Progress(JobStores.Running, Blank, Blank, AllRemaining())
      modifies this, job
      ensures Valid() && old(history) <= history
      ensures ok <==> && !gate.Refused?
                      && (|| old(stage).Finished?
                          || (gate.Passed? && FirstFailure(old(stage), works, old(calls)).None? && released))
      ensures ok ==> stage.Finished? && performed == old(Outlook())
      ensures gate.Passed? && !old(stage).Finished? ==> Outcome(old(Now()), works, old(calls), Now())
      ensures Reliable() && gate.Passed? && released ==> ok
      ensures var shown := Showing(LastShown(old(stage), gate, stage));
              job.Value() == if ok then shown.Completed() else shown.FailedNow()
      ensures job.Value() == Rebuilt(Now().Checkpoint()) <==>
              PagesAgree(old(Now()), gate, released, works, old(calls))
      ensures ok ==> job.state == JobStores.Complete && job.Value() == Rebuilt(Now().Checkpoint())
      ensures !ok ==> job.state == JobStores.Failed
      ensures !ok ==> (job.Value() == Rebuilt(Now().Checkpoint()) <==>
                       status.Failed? && if gate.Passed? then stage != Step(3) else stage in {Step(0), Keys})
    {
      job.Update("schedules");
      ok := Delete(job, gate, released);
      ghost var shown := LastShown(old(stage), gate, stage);
      OutcomeShows(Now(), shown);
      RequestAgrees(old(Now()), gate, released, works, old(calls), Now(), ok);
      if ok {
        job.Complete();
      } else {
        job.Fail();
      }
    }
  }

  /** What the pages show after a request, by its outcome. */
  lemma RequestAgrees(before: Durable, gate: Gate, released: bool, works: nat -> bool, call: nat, after: Durable,
                      ok: bool)
    requires before.Valid() && after.Valid()
    requires gate.Refused? || before.stage.Finished? ==> after == before && (ok <==> !gate.Refused?)
    requires gate.Busy? && !before.stage.Finished? ==>
               !ok && after == before.(status := if works(call) then JobStores.Failed else before.status)
    requires gate.Passed? && !before.stage.Finished? ==>
               && (ok <==> FirstFailure(before.stage, works, call).None? && released)
               && Outcome(before, works, call, after)
    ensures (forall n: nat :: works(n)) && gate.Passed? && released ==> ok
    ensures var shown := LastShown(before.stage, gate, after.stage);
            PagesAgree(before, gate, released, works, call) <==>
            if ok then after.status.Complete?
            else after.status.Failed? && shown == if after.stage.Step? then after.stage.place else 0
    ensures !ok ==> (PagesAgree(before, gate, released, works, call) <==>
                     && after.status.Failed?
                     && if gate.Passed? then after.stage != Step(3) else after.stage in {Step(0), Keys})
  {
    FailureIsLater(before.stage, works, call);
    if forall n: nat :: works(n) {
      ReliableNeverFails(before.stage, works, call);
    }
    if gate.Passed? && !before.stage.Finished? && !after.stage.Finished? {
      SilentStages(before.stage, after.stage);
    }
  }

  /** A deletion whose refresh of the routing fails, as its eighth call: the job blames
      the metadata, the checkpoint names the routing. */
  method RoutingFailureIsMisplaced() returns (shown: Progress, rebuilt: Progress)
    ensures shown.state == rebuilt.state == JobStores.Failed
    ensures shown.errorStage == StepName(2) && rebuilt.errorStage == StepName(3)
  {
    var works := (n: nat) => n != 7;
    var deletion := new Deletion.Begin(None, works);
    var job := new DeleteJob();
    SeventhCallFails(works);
    var ok := deletion.RunJob(job, Passed, true);
    FailureShows(2);
    OutcomeShows(deletion.Now(), 3);
    FailureShows(3);
    shown, rebuilt := job.Value(), Rebuilt(deletion.Now().Checkpoint());
  }

  lemma SeventhCallFails(works: nat -> bool)
    requires forall n: nat :: works(n) <==> n != 7
    ensures FirstFailure(Step(0), works, 0) == Some(Failure(Step(3), Operation, 7))
  {
    assert FirstFailure(Step(3), works, 7) == Some(Failure(Step(3), Operation, 7));
    assert FirstFailure(Step(2), works, 5) == FirstFailure(Step(3), works, 7);
    assert FirstFailure(Step(1), works, 2) == FirstFailure(Step(2), works, 5);
  }
}
