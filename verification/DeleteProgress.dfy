/** The progress of an application deletion: the steps a running job shows, and
    the same steps rebuilt from the durable checkpoint after a restart
    (internal/handler/application_delete_job.go). Times and error texts are left out. */
module DeleteProgress {
  import JobStores
  import opened RegistryTree

  type JobState = JobStores.State

  datatype StepState = Remaining | Active | Complete | Failed

  /** The text over a dialog: nothing, the name of a step, or one of two fixed texts
      that name no step. */
  datatype Caption = Blank | StepName(place: nat) | RemoveResources | Done

  /** The steps are the same five for every deletion; only their states change. */
  const STEPS := 5

  function StageAt(k: nat): string {
    if k == 0 then "schedules" else if k == 1 then "resources" else if k == 2 then "metadata"
    else if k == 3 then "routing" else "folder"
  }

  /** The checkpoint of a deletion: its stage and state as they were stored. */
  datatype Intent = Intent(stage: string, state: string)

  /** The place of a stage among the steps, or their number. */
  function IndexOf(stage: string): (i: nat)
    ensures i <= STEPS
    ensures i < STEPS ==> StageAt(i) == stage
    ensures forall k | 0 <= k < i :: StageAt(k) != stage
  {
    if stage == "schedules" then 0 else if stage == "resources" then 1 else if stage == "metadata" then 2
    else if stage == "routing" then 3 else if stage == "folder" then 4 else STEPS
  }

  predicate Known(stage: string) {
    IndexOf(stage) < STEPS
  }

  predicate Open(step: StepState) {
    step.Remaining? || step.Active?
  }

  /** The steps before place i closed. */
  function ClosedBefore(steps: seq<StepState>, i: nat): (r: seq<StepState>)
    requires i <= |steps|
    ensures |r| == |steps|
  {
    seq(|steps|, k requires 0 <= k < |steps| => if k < i && Open(steps[k]) then Complete else steps[k])
  }

  /** The place of the first active step, or the number of steps. */
  function FirstActive(steps: seq<StepState>): (i: nat)
    ensures i <= |steps|
    ensures i < |steps| ==> steps[i].Active?
    ensures forall k | 0 <= k < i :: !steps[k].Active?
  {
    if steps == [] || steps[0].Active? then 0 else 1 + FirstActive(steps[1..])
  }

  /** What a progress page shows. */
  datatype Progress = Progress(state: JobState, currentStage: Caption, errorStage: Caption, steps: seq<StepState>) {

    function Updated(stage: string): Progress
      requires |steps| == STEPS
    {
      var i := IndexOf(stage);
      if !state.Running? then this
      else if i == STEPS then this.(currentStage := RemoveResources)
      else this.(currentStage := StepName(i), steps := ClosedBefore(steps, i)[i := Active])
    }

    function Completed(): Progress {
      if !state.Running? then this
      else this.(state := JobStores.Complete, currentStage := Done, steps := ClosedBefore(steps, |steps|))
    }

    /** Where a failure is put: the first active step, else what was shown last. */
    function Blamed(): Caption {
      if FirstActive(steps) < |steps| then StepName(FirstActive(steps))
      else if errorStage != Blank then errorStage
      else if currentStage != Blank then currentStage
      else RemoveResources
    }

    function FailedNow(): Progress {
      var i := FirstActive(steps);
      if !state.Running? then this
      else this.(state := JobStores.Failed, errorStage := Blamed(),
                 steps := if i < |steps| then steps[i := Failed] else steps)
    }
  }

  class DeleteJob {
    var state: JobState
    var currentStage: Caption
    var errorStage: Caption
    var steps: seq<StepState>

    constructor ()
      ensures Value() == Progress(JobStores.Running, Blank, Blank, AllRemaining())
    {
      state, currentStage, errorStage, steps := JobStores.Running, Blank, Blank, AllRemaining();
    }

    function Value(): Progress
      reads this
    {
      Progress(state, currentStage, errorStage, steps)
    }

    method Update(stage: string)
      requires |steps| == STEPS
      modifies this
      ensures Value() == old(Value()).Updated(stage)
      ensures |steps| == STEPS
    {
      if !state.Running? {
        return;
      }
      var stepIndex := 0;
      while stepIndex < |steps| && StageAt(stepIndex) != stage
        invariant stepIndex <= IndexOf(stage)
      {
        stepIndex := stepIndex + 1;
      }
      if stepIndex == |steps| {
        currentStage := RemoveResources;
        return;
      }
      CloseBefore(stepIndex);
      currentStage := StepName(stepIndex);
      steps := steps[stepIndex := Active];
    }

    method CloseBefore(bound: nat)
      requires bound <= |steps|
      modifies this`steps
      ensures steps == ClosedBefore(old(steps), bound)
    {
      var index := 0;
      while index < bound
        invariant index <= bound
        invariant steps == ClosedBefore(old(steps), index)
      {
        if Open(steps[index]) {
          steps := steps[index := StepState.Complete];
        }
        index := index + 1;
      }
    }

    method Complete()
      modifies this
      ensures Value() == old(Value()).Completed()
    {
      if !state.Running? {
        return;
      }
      CloseBefore(|steps|);
      state, currentStage := JobStores.Complete, Done;
    }

    method Fail()
      modifies this
      ensures Value() == old(Value()).FailedNow()
    {
      if !state.Running? {
        return;
      }
      var index := 0;
      while index < |steps| && !steps[index].Active?
        invariant index <= FirstActive(steps)
      {
        index := index + 1;
      }
      if index < |steps| {
        errorStage := StepName(index);
        steps := steps[index := Failed];
      }
      if errorStage == Blank {
        errorStage := currentStage;
      }
      if errorStage == Blank {
        errorStage := RemoveResources;
      }
      state := JobStores.Failed;
    }
  }

  /** Complete steps, one in the given state, remaining steps. */
  function StepsAt(i: nat, state: StepState): (steps: seq<StepState>)
    ensures |steps| == STEPS
    ensures forall k | 0 <= k < STEPS :: steps[k] == if k < i then Complete else if k == i then state else Remaining
  {
    seq(STEPS, k => if k < i then Complete else if k == i then state else Remaining)
  }

  function AllRemaining(): (steps: seq<StepState>)
    ensures |steps| == STEPS && forall k | 0 <= k < STEPS :: steps[k] == Remaining
  {
    seq(STEPS, _ => Remaining)
  }

  /** The stage a checkpoint stands for; anything unreadable stands for the first. */
  function PlaceOf(intent: Intent): (i: nat)
    ensures i < STEPS
  {
    if Known(TrimSpace(intent.stage)) then IndexOf(TrimSpace(intent.stage)) else 0
  }

  /** What a page shows that knows the checkpoint alone. */
  function Rebuilt(intent: Intent): Progress {
    var i := PlaceOf(intent);
    if intent.state == "complete" || TrimSpace(intent.stage) == "complete" then
      Progress(JobStores.Complete, Done, Blank, StepsAt(STEPS, Complete))
    else if intent.state == "failed" then
      Progress(JobStores.Failed, StepName(i), StepName(i), StepsAt(i, Failed))
    else
      Progress(JobStores.Running, StepName(i), Blank, StepsAt(i, Active))
  }

  method ProgressFromIntent(intent: Intent) returns (progress: Progress)
    ensures progress == Rebuilt(intent)
  {
    var stage := TrimSpace(intent.stage);
    if stage == "" {
      stage := "schedules";
    }
    progress := Progress(JobStores.Running, Blank, Blank, AllRemaining());
    if intent.state == "complete" || stage == "complete" {
      progress := progress.(state := JobStores.Complete, currentStage := Done);
      var index := 0;
      while index < STEPS
        invariant index <= STEPS == |progress.steps|
        invariant progress == Progress(JobStores.Complete, Done, Blank, progress.steps)
        invariant forall k | 0 <= k < index :: progress.steps[k] == Complete
        invariant forall k | index <= k < STEPS :: progress.steps[k] == Remaining
      {
        progress := progress.(steps := progress.steps[index := Complete]);
        index := index + 1;
      }
      return;
    }
    var stageIndex := 0;
    while stageIndex < STEPS && StageAt(stageIndex) != stage
      invariant stageIndex <= IndexOf(stage)
    {
      stageIndex := stageIndex + 1;
    }
    if stageIndex == STEPS {
      stageIndex := 0;
    }
    assert stageIndex == PlaceOf(intent);
    var index := 0;
    while index < STEPS
      invariant index <= STEPS == |progress.steps|
      invariant forall k | index <= k < STEPS :: progress.steps[k] == Remaining
      invariant forall k | 0 <= k < index && k < stageIndex :: progress.steps[k] == Complete
      invariant forall k | 0 <= k < index && k > stageIndex :: progress.steps[k] == Remaining
      invariant index <= stageIndex ==> progress == Progress(JobStores.Running, Blank, Blank, progress.steps)
      invariant index > stageIndex ==> progress == Rebuilt(intent).(steps := progress.steps)
                                       && progress.steps[stageIndex] == Rebuilt(intent).steps[stageIndex]
    {
      if index < stageIndex {
        progress := progress.(steps := progress.steps[index := Complete]);
      } else if index == stageIndex {
        progress := progress.(currentStage := StepName(index));
        if intent.state == "failed" {
          progress := progress.(state := JobStores.Failed, errorStage := StepName(index),
                                steps := progress.steps[index := Failed]);
        } else {
          progress := progress.(steps := progress.steps[index := Active]);
        }
      }
      index := index + 1;
    }
  }

  // ----- A job and its checkpoint show the same

  /** The job after it was told these stages and then the last one. The handler
      itself reports the first stage before anything else. */
  function Told(before: seq<string>, last: string): (p: Progress)
    ensures |p.steps| == STEPS && p.state.Running?
  {
    if before == [] then Progress(JobStores.Running, Blank, Blank, AllRemaining()).Updated(last)
    else Told(before[..|before| - 1], before[|before| - 1]).Updated(last)
  }

  predicate Within(stage: string, bound: nat) {
    Known(stage) ==> IndexOf(stage) <= bound
  }

  /** The last stage is known, and no known one told before comes after it. */
  predicate Forward(before: seq<string>, last: string) {
    Known(last) && forall i | 0 <= i < |before| :: Within(before[i], IndexOf(last))
  }

  /** The place of the last known stage, and the furthest place. */
  function Place(before: seq<string>, last: string): nat {
    if Known(last) then IndexOf(last)
    else if before == [] then 0
    else Place(before[..|before| - 1], before[|before| - 1])
  }

  function Furthest(before: seq<string>, last: string): nat {
    var earlier := if before == [] then 0 else Furthest(before[..|before| - 1], before[|before| - 1]);
    if Known(last) && IndexOf(last) > earlier then IndexOf(last) else earlier
  }

  /** Complete up to the place, active there, begun up to the furthest place, never
      failed. */
  ghost predicate Shaped(p: Progress, place: nat, furthest: nat) {
    && |p.steps| == STEPS && p.state.Running? && p.errorStage == Blank && place <= furthest < STEPS
    && (forall k | 0 <= k < place :: p.steps[k].Complete?)
    && p.steps[place].Active?
    && (forall k | place < k <= furthest :: !p.steps[k].Remaining?)
    && (forall k | furthest < k < STEPS :: p.steps[k].Remaining?)
    && (forall k | 0 <= k < STEPS :: !p.steps[k].Failed?)
  }

  lemma UpdateKeepsShape(p: Progress, place: nat, furthest: nat, stage: string)
    requires Shaped(p, place, furthest)
    ensures Shaped(p.Updated(stage), if Known(stage) then IndexOf(stage) else place,
                   if Known(stage) && IndexOf(stage) > furthest then IndexOf(stage) else furthest)
  {
  }

  /** However the stages come, the steps keep their shape. */
  lemma {:induction false} ToldShape(before: seq<string>, last: string)
    requires (before + [last])[0] == "schedules"
    ensures Shaped(Told(before, last), Place(before, last), Furthest(before, last))
    ensures Told(before, last).currentStage == if Known(last) then StepName(IndexOf(last)) else RemoveResources
  {
    if before != [] {
      ToldShape(before[..|before| - 1], before[|before| - 1]);
      UpdateKeepsShape(Told(before[..|before| - 1], before[|before| - 1]),
        Place(before[..|before| - 1], before[|before| - 1]),
        Furthest(before[..|before| - 1], before[|before| - 1]), last);
    }
  }

  lemma {:induction false} ForwardIsFurthest(before: seq<string>, last: string, bound: nat)
    requires bound < STEPS
    ensures Furthest(before, last) <= bound <==>
            Within(last, bound) && forall i | 0 <= i < |before| :: Within(before[i], bound)
  {
    if before != [] {
      var earlier, latest := before[..|before| - 1], before[|before| - 1];
      ForwardIsFurthest(earlier, latest, bound);
      assert before == earlier + [latest];
      assert Furthest(before, last) <= bound <==> Within(last, bound) && Furthest(earlier, latest) <= bound;
    }
  }

  lemma KnownStagesAreTrimmed(stage: string)
    requires Known(stage)
    ensures TrimSpace(stage) == stage
  {
  }

  /** Two jobs at the same place show the same exactly if nothing lies beyond it. */
  lemma ShapeDecides(p: Progress, place: nat, furthest: nat)
    requires Shaped(p, place, furthest)
    ensures p.steps == StepsAt(place, Active) <==> place == furthest
    ensures p.FailedNow().steps == StepsAt(place, Failed) <==> place == furthest
    ensures p.FailedNow().errorStage == StepName(place)
    ensures p.Completed().steps == StepsAt(STEPS, Complete)
  {
    assert FirstActive(p.steps) == place;
    if place < furthest {
      assert !p.FailedNow().steps[furthest].Remaining? && !p.steps[furthest].Remaining?;
    }
  }

  /** A running or failed job shows what its checkpoint shows exactly when the last
      stage it was told is a known one that no other overtook; a completed job always
      does. */
  lemma CheckpointShowsJob(before: seq<string>, last: string)
    requires (before + [last])[0] == "schedules"
    ensures Told(before, last) == Rebuilt(Intent(last, "running")) <==> Forward(before, last)
    ensures Told(before, last).FailedNow() == Rebuilt(Intent(last, "failed")) <==> Forward(before, last)
    ensures Told(before, last).Completed() == Rebuilt(Intent(last, "complete"))
  {
    var p, place, furthest := Told(before, last), Place(before, last), Furthest(before, last);
    ToldShape(before, last);
    if Known(last) {
      ForwardIsFurthest(before, last, place);
      KnownStageShows(p, place, furthest, last);
    } else {
      UnknownStageShows(p, place, furthest, last);
    }
  }

  lemma KnownStageShows(p: Progress, place: nat, furthest: nat, last: string)
    requires Shaped(p, place, furthest) && Known(last) && place == IndexOf(last) && p.currentStage == StepName(place)
    ensures p == Rebuilt(Intent(last, "running")) <==> place == furthest
    ensures p.FailedNow() == Rebuilt(Intent(last, "failed")) <==> place == furthest
    ensures p.Completed() == Rebuilt(Intent(last, "complete"))
  {
    ShapeDecides(p, place, furthest);
    KnownStagesAreTrimmed(last);
  }

  lemma UnknownStageShows(p: Progress, place: nat, furthest: nat, last: string)
    requires Shaped(p, place, furthest) && !Known(last) && p.currentStage == RemoveResources
    ensures p != Rebuilt(Intent(last, "running")) && p.FailedNow() != Rebuilt(Intent(last, "failed"))
    ensures p.Completed() == Rebuilt(Intent(last, "complete"))
  {
    ShapeDecides(p, place, furthest);
  }

  /** Complete steps, the active one, remaining steps: exactly the forward runs. */
  lemma ForwardShape(before: seq<string>, last: string)
    requires (before + [last])[0] == "schedules" && Known(last)
    ensures Told(before, last).steps == StepsAt(IndexOf(last), Active) <==> Forward(before, last)
  {
    ToldShape(before, last);
    ShapeDecides(Told(before, last), Place(before, last), Furthest(before, last));
    ForwardIsFurthest(before, last, IndexOf(last));
  }
}
