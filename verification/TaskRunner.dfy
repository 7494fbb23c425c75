/**
 The scheduled-task runner: scheduler ticks and executions interleaved at their awaits.  One step is
 one committed transaction or one stretch of code between awaits.
 */
module TaskRunner {
  import opened Options

  datatype Status = Running | Success | Error

  /** A history row, with how many times it has been finished. */
  datatype RunRow = RunRow(task: int, status: Status, finishes: nat)

  /** A suspended `_execute`, by where it waits; `run` is its history row once it has one. */
  datatype Exec =
    | Spawned(task: int)
    | Loading(task: int)
    | InBody(task: int, run: Option<nat>)
    | BodyDone(task: int, run: Option<nat>)
    | BodyFailed(task: int, run: Option<nat>)
  {
    /** Past `_running_task_ids.add`. */
    predicate Active() {
      !Spawned?
    }

    function Row(): Option<nat> {
      if InBody? || BodyDone? || BodyFailed? then run else None
    }
  }

  /** `orphaned` remembers the rows whose execution was cancelled or could not record its error. */
  datatype State = State(runningIds: set<int>, execs: map<nat, Exec>, runs: map<nat, RunRow>, orphaned: set<nat>)

  datatype Step =
    | Spawn(exec: nat, task: int)
    | Begin(exec: nat)
    | GiveUp(exec: nat)
    | UnknownKey(exec: nat, row: nat)
    | StartWithRow(exec: nat, row: nat)
    | StartWithoutRow(exec: nat)
    | BodyReturns(exec: nat)
    | BodyRaises(exec: nat)
    | RecordSuccess(exec: nat)
    | RecordSuccessFails(exec: nat)
    | RecordError(exec: nat, row: nat)
    | RecordErrorFails(exec: nat)
    | Cancel(exec: nat)
    | Restart

  predicate In(s: State, c: nat) {
    c in s.execs
  }

  predicate Enabled(s: State, step: Step) {
    match step
    case Spawn(c, t) => c !in s.execs && t !in s.runningIds
    case Begin(c) => In(s, c) && s.execs[c].Spawned?
    case GiveUp(c) => In(s, c) && s.execs[c].Loading?
    case UnknownKey(c, r) => In(s, c) && s.execs[c].Loading? && r !in s.runs
    case StartWithRow(c, r) => In(s, c) && s.execs[c].Loading? && r !in s.runs
    case StartWithoutRow(c) => In(s, c) && s.execs[c].Loading?
    case BodyReturns(c) => In(s, c) && s.execs[c].InBody?
    case BodyRaises(c) => In(s, c) && s.execs[c].InBody?
    case RecordSuccess(c) => In(s, c) && s.execs[c].BodyDone?
    case RecordSuccessFails(c) => In(s, c) && s.execs[c].BodyDone?
    case RecordError(c, r) => In(s, c) && s.execs[c].BodyFailed? && (s.execs[c].run.None? ==> r !in s.runs)
    case RecordErrorFails(c) => In(s, c) && s.execs[c].BodyFailed?
    case Cancel(c) => In(s, c)
    case Restart => true
  }

  /** `finally: _running_task_ids.discard(task_id)`. */
  function Release(s: State, c: nat): State
    requires c in s.execs
  {
    s.(runningIds := s.runningIds - {s.execs[c].task}, execs := s.execs - {c})
  }

  /** `UPDATE ... WHERE id = :id`. */
  function Finish(s: State, r: nat, status: Status): State {
    if r !in s.runs then s
    else s.(runs := s.runs[r := s.runs[r].(status := status, finishes := s.runs[r].finishes + 1)])
  }

  function Abandon(s: State, c: nat): State
    requires c in s.execs
  {
    if s.execs[c].Row().Some? then s.(orphaned := s.orphaned + {s.execs[c].Row().value}) else s
  }

  /** `reap_orphan_running_runs` at boot. */
  function Reap(runs: map<nat, RunRow>): map<nat, RunRow> {
    map r | r in runs :: if runs[r].status.Running? then runs[r].(status := Error, finishes := runs[r].finishes + 1) else runs[r]
  }

  function Apply(s: State, step: Step): State
    requires Enabled(s, step)
  {
    match step
    case Spawn(c, t) => s.(execs := s.execs[c := Spawned(t)])
    case Begin(c) =>
      var t := s.execs[c].task;
      if t in s.runningIds then s.(execs := s.execs - {c})
      else s.(runningIds := s.runningIds + {t}, execs := s.execs[c := Loading(t)])
    case GiveUp(c) => Release(s, c)
    case UnknownKey(c, r) => Release(s.(runs := s.runs[r := RunRow(s.execs[c].task, Error, 1)]), c)
    case StartWithRow(c, r) =>
      var t := s.execs[c].task;
      s.(runs := s.runs[r := RunRow(t, Running, 0)], execs := s.execs[c := InBody(t, Some(r))])
    case StartWithoutRow(c) => s.(execs := s.execs[c := InBody(s.execs[c].task, None)])
    case BodyReturns(c) => s.(execs := s.execs[c := BodyDone(s.execs[c].task, s.execs[c].run)])
    case BodyRaises(c) => s.(execs := s.execs[c := BodyFailed(s.execs[c].task, s.execs[c].run)])
    case RecordSuccess(c) =>
      Release(if s.execs[c].run.Some? then Finish(s, s.execs[c].run.value, Success) else s, c)
    case RecordSuccessFails(c) => s.(execs := s.execs[c := BodyFailed(s.execs[c].task, s.execs[c].run)])
    case RecordError(c, r) =>
      var q := s.execs[c];
      Release(if q.run.Some? then Finish(s, q.run.value, Error) else s.(runs := s.runs[r := RunRow(q.task, Error, 1)]), c)
    case RecordErrorFails(c) => Release(Abandon(s, c), c)
    case Cancel(c) => if s.execs[c].Spawned? then s.(execs := s.execs - {c}) else Release(Abandon(s, c), c)
    case Restart => s.(runningIds := {}, execs := map[], runs := Reap(s.runs), orphaned := {})
  }

  // ----- the invariant -----

  ghost predicate RowsExist(s: State) {
    forall c :: c in s.execs && s.execs[c].Row().Some? ==> s.execs[c].Row().value in s.runs
  }

  /** The id set holds exactly the tasks of the active executions, one execution each. */
  ghost predicate IdsMatch(s: State) {
    && (forall c :: c in s.execs && s.execs[c].Active() ==> s.execs[c].task in s.runningIds)
    && (forall t :: t in s.runningIds ==> exists c :: c in s.execs && s.execs[c].Active() && s.execs[c].task == t)
    && (forall c, d :: c in s.execs && d in s.execs && s.execs[c].Active() && s.execs[d].Active() && s.execs[c].task == s.execs[d].task
                       ==> c == d)
  }

  ghost predicate Owns(s: State, c: nat, r: nat) {
    c in s.execs && s.execs[c].Row() == Some(r)
  }

  /** A row is unfinished exactly while its one execution owns it or after that was abandoned; every other row
      has been finished exactly once. */
  ghost predicate RowsMatch(s: State) {
    && RowsExist(s)
    && (forall r :: r in s.orphaned ==> r in s.runs)
    && (forall r :: r in s.runs ==> s.runs[r].finishes == if s.runs[r].status.Running? then 0 else 1)
    && (forall r :: r in s.runs && s.runs[r].status.Running? ==> r in s.orphaned || exists c :: Owns(s, c, r))
    && (forall c, r :: Owns(s, c, r) ==> s.runs[r].status.Running? && r !in s.orphaned)
    && (forall c, d, r :: Owns(s, c, r) && Owns(s, d, r) ==> c == d)
    && (forall r :: r in s.orphaned ==> s.runs[r].status.Running?)
  }

  ghost predicate Inv(s: State) {
    IdsMatch(s) && RowsMatch(s)
  }

  /** Releasing an execution whose row has been settled. */
  lemma ReleaseInv(s: State, settled: State, c: nat)
    requires Inv(s) && c in s.execs && s.execs[c].Active()
    requires settled.execs == s.execs && settled.runningIds == s.runningIds
    requires RowsExist(settled) && forall r :: r in settled.orphaned ==> r in settled.runs
    requires forall r :: r in settled.runs ==> settled.runs[r].finishes == if settled.runs[r].status.Running? then 0 else 1
    requires forall r :: r in settled.runs && settled.runs[r].status.Running? ==> r in settled.orphaned || (r in s.runs && s.runs[r].status.Running? && r !in s.orphaned && !Owns(s, c, r))
    requires forall d, r :: d != c && Owns(s, d, r) ==> settled.runs[r].status.Running? && r !in settled.orphaned
    requires forall r :: r in settled.orphaned ==> settled.runs[r].status.Running?
    ensures Inv(Release(settled, c))
  {
    var after := Release(settled, c);
    forall t | t in after.runningIds
      ensures exists d :: d in after.execs && after.execs[d].Active() && after.execs[d].task == t
    {
      var d :| d in s.execs && s.execs[d].Active() && s.execs[d].task == t;
      assert d in after.execs;
    }
    forall d, r | Owns(after, d, r)
      ensures Owns(s, d, r) && d != c
    {
    }
    forall r | r in after.runs && after.runs[r].status.Running? && r !in after.orphaned
      ensures exists d :: Owns(after, d, r)
    {
      var d :| Owns(s, d, r);
      assert Owns(after, d, r);
    }
  }

  /** A step that only moves one execution between its own states. */
  lemma MoveInv(s: State, c: nat, q: Exec)
    requires Inv(s) && c in s.execs
    requires q.task == s.execs[c].task && q.Active() && s.execs[c].Active() && q.Row() == s.execs[c].Row()
    ensures Inv(s.(execs := s.execs[c := q]))
  {
    var after := s.(execs := s.execs[c := q]);
    forall t | t in after.runningIds
      ensures exists d :: d in after.execs && after.execs[d].Active() && after.execs[d].task == t
    {
      var d :| d in s.execs && s.execs[d].Active() && s.execs[d].task == t;
      assert d in after.execs && after.execs[d].Active() && after.execs[d].task == t;
    }
    assert forall d, r :: Owns(after, d, r) <==> Owns(s, d, r);
  }

  /** A step on an execution that is not active yet. */
  lemma InactiveInv(s: State, execs: map<nat, Exec>)
    requires Inv(s)
    requires forall c :: c in execs && execs[c].Active() <==> c in s.execs && s.execs[c].Active()
    requires forall c :: c in s.execs && s.execs[c].Active() ==> execs[c] == s.execs[c]
    ensures Inv(s.(execs := execs))
  {
    var after := s.(execs := execs);
    forall t | t in after.runningIds
      ensures exists d :: d in after.execs && after.execs[d].Active() && after.execs[d].task == t
    {
      var d :| d in s.execs && s.execs[d].Active() && s.execs[d].task == t;
      assert d in after.execs && after.execs[d].task == t;
    }
    assert forall d, r :: Owns(after, d, r) <==> Owns(s, d, r);
  }

  lemma BeginInv(s: State, c: nat)
    requires Inv(s) && Enabled(s, Begin(c))
    ensures Inv(Apply(s, Begin(c)))
  {
    var t, after := s.execs[c].task, Apply(s, Begin(c));
    if t in s.runningIds {
      InactiveInv(s, after.execs);
    } else {
      forall u | u in after.runningIds
        ensures exists d :: d in after.execs && after.execs[d].Active() && after.execs[d].task == u
      {
        if u == t {
          assert after.execs[c].task == u;
        } else {
          var d :| d in s.execs && s.execs[d].Active() && s.execs[d].task == u;
          assert d in after.execs && after.execs[d].task == u;
        }
      }
      assert forall d, r :: Owns(after, d, r) <==> Owns(s, d, r);
    }
  }

  lemma StartWithRowInv(s: State, c: nat, r: nat)
    requires Inv(s) && Enabled(s, StartWithRow(c, r))
    ensures Inv(Apply(s, StartWithRow(c, r)))
  {
    var after := Apply(s, StartWithRow(c, r));
    forall t | t in after.runningIds
      ensures exists d :: d in after.execs && after.execs[d].Active() && after.execs[d].task == t
    {
      var d :| d in s.execs && s.execs[d].Active() && s.execs[d].task == t;
      assert d in after.execs && after.execs[d].Active() && after.execs[d].task == t;
    }
    assert forall d, x :: Owns(after, d, x) <==> Owns(s, d, x) || (d == c && x == r);
    assert Owns(after, c, r);
  }

  lemma RestartInv(s: State)
    requires Inv(s)
    ensures Inv(Apply(s, Restart))
  {
  }

  lemma FinishInv(s: State, c: nat, status: Status)
    requires Inv(s) && c in s.execs && s.execs[c].Active() && s.execs[c].Row().Some? && !status.Running?
    ensures Inv(Release(Finish(s, s.execs[c].Row().value, status), c))
  {
    var r := s.execs[c].Row().value;
    assert Owns(s, c, r);
    ReleaseInv(s, Finish(s, r, status), c);
  }

  lemma AddFinishedInv(s: State, c: nat, r: nat)
    requires Inv(s) && c in s.execs && s.execs[c].Active() && s.execs[c].Row().None? && r !in s.runs
    ensures Inv(Release(s.(runs := s.runs[r := RunRow(s.execs[c].task, Error, 1)]), c))
  {
    ReleaseInv(s, s.(runs := s.runs[r := RunRow(s.execs[c].task, Error, 1)]), c);
  }

  lemma AbandonInv(s: State, c: nat)
    requires Inv(s) && c in s.execs && s.execs[c].Active()
    ensures Inv(Release(Abandon(s, c), c))
  {
    if s.execs[c].Row().Some? {
      assert Owns(s, c, s.execs[c].Row().value);
    }
    ReleaseInv(s, Abandon(s, c), c);
  }

  lemma StepInv(s: State, step: Step)
    requires Inv(s) && Enabled(s, step)
    ensures Inv(Apply(s, step))
  {
    match step
    case Spawn(c, t) => InactiveInv(s, s.execs[c := Spawned(t)]);
    case Begin(c) => BeginInv(s, c);
    case GiveUp(c) => AbandonInv(s, c);
    case UnknownKey(c, r) => AddFinishedInv(s, c, r);
    case StartWithRow(c, r) => StartWithRowInv(s, c, r);
    case StartWithoutRow(c) => MoveInv(s, c, InBody(s.execs[c].task, None));
    case BodyReturns(c) => MoveInv(s, c, BodyDone(s.execs[c].task, s.execs[c].run));
    case BodyRaises(c) => MoveInv(s, c, BodyFailed(s.execs[c].task, s.execs[c].run));
    case RecordSuccess(c) =>
      if s.execs[c].run.Some? {
        FinishInv(s, c, Success);
      } else {
        AbandonInv(s, c);
      }
    case RecordSuccessFails(c) => MoveInv(s, c, BodyFailed(s.execs[c].task, s.execs[c].run));
    case RecordError(c, r) =>
      if s.execs[c].run.Some? {
        FinishInv(s, c, Error);
      } else {
        AddFinishedInv(s, c, r);
      }
    case RecordErrorFails(c) => AbandonInv(s, c);
    case Cancel(c) =>
      if s.execs[c].Spawned? {
        InactiveInv(s, s.execs - {c});
      } else {
        AbandonInv(s, c);
      }
    case Restart => RestartInv(s);
  }

  // ----- the theorems -----

  ghost predicate IsRun(steps: seq<Step>, states: seq<State>) {
    && |states| == |steps| + 1
    && states[0] == State({}, map[], map[], {})
    && forall n :: 0 <= n < |steps| ==>
         Enabled(states[n], steps[n]) && states[n + 1] == Apply(states[n], steps[n])
  }

  lemma {:induction false} RunInv(steps: seq<Step>, states: seq<State>, n: nat)
    requires IsRun(steps, states) && n <= |steps|
    ensures Inv(states[n])
  {
    if n > 0 {
      RunInv(steps, states, n - 1);
      assert states[n - 1 + 1] == Apply(states[n - 1], steps[n - 1]);
      StepInv(states[n - 1], steps[n - 1]);
    }
  }

  /** At most one body per task runs at a time, and an id stays taken exactly as long as an execution of it is
      under way. */
  lemma OneBodyPerTask(steps: seq<Step>, states: seq<State>, n: nat, c: nat, d: nat)
    requires IsRun(steps, states) && n <= |steps|
    requires c in states[n].execs && d in states[n].execs
    requires states[n].execs[c].InBody? && states[n].execs[d].InBody? && states[n].execs[c].task == states[n].execs[d].task
    ensures c == d
  {
    RunInv(steps, states, n);
  }

  lemma IdsAreReleased(steps: seq<Step>, states: seq<State>, n: nat, t: int)
    requires IsRun(steps, states) && n <= |steps|
    ensures t in states[n].runningIds
            <==> exists c :: c in states[n].execs && states[n].execs[c].Active() && states[n].execs[c].task == t
  {
    RunInv(steps, states, n);
  }

  /** Every history row without an execution under way has been finished exactly once, as success or error,
      unless its execution was cancelled or could not record its error. */
  lemma RowsEndOnce(steps: seq<Step>, states: seq<State>, n: nat, r: nat)
    requires IsRun(steps, states) && n <= |steps| && r in states[n].runs
    requires !exists c :: Owns(states[n], c, r)
    ensures r in states[n].orphaned || (states[n].runs[r].finishes == 1 && !states[n].runs[r].status.Running?)
    ensures states[n].runs[r].finishes <= 1
  {
    RunInv(steps, states, n);
  }

  /** Rows are orphaned by nothing but a cancellation or a failed error record. */
  lemma OrphansNeedFailure(s: State, step: Step, r: nat)
    requires Inv(s) && Enabled(s, step) && r !in s.orphaned && r in Apply(s, step).orphaned
    ensures (step.Cancel? || step.RecordErrorFails?) && Owns(s, step.exec, r)
  {
  }

  /** The boot reaper finishes all the rest. */
  lemma ReaperFinishesAll(steps: seq<Step>, states: seq<State>, n: nat, r: nat)
    requires IsRun(steps, states) && n < |steps| && steps[n].Restart? && r in states[n].runs
    ensures r in states[n + 1].runs && !states[n + 1].runs[r].status.Running? && states[n + 1].runs[r].finishes == 1
  {
    RunInv(steps, states, n);
  }

  // ----- what the rows say -----

  /** What a step makes of a row that exists: its own execution recording a success or an error settles it, a
      restart settles it as an error when it is unfinished, and nothing else touches it. */
  lemma StepSettlesRow(s: State, step: Step, r: nat)
    requires Inv(s) && Enabled(s, step) && r in s.runs
    ensures var t := Apply(s, step);
            && r in t.runs
            && t.runs[r] ==
               if step.RecordSuccess? && Owns(s, step.exec, r) then RunRow(s.runs[r].task, Success, s.runs[r].finishes + 1)
               else if step.RecordError? && Owns(s, step.exec, r) then RunRow(s.runs[r].task, Error, s.runs[r].finishes + 1)
               else if step.Restart? && s.runs[r].status == Running then RunRow(s.runs[r].task, Error, s.runs[r].finishes + 1)
               else s.runs[r]
  {
  }

  /** What a row that a step creates says: it is the task's, running when the task's body starts with one, and an
      error when the key is unknown or a failure has no row yet. */
  lemma NewRowSays(s: State, step: Step, r: nat)
    requires Inv(s) && Enabled(s, step) && r !in s.runs && r in Apply(s, step).runs
    ensures step.StartWithRow? || step.UnknownKey? || step.RecordError?
    ensures var t := Apply(s, step);
            && step.row == r && t.runs[r].task == s.execs[step.exec].task
            && (step.StartWithRow? ==> t.runs[r].status == Running && Owns(t, step.exec, r))
            && (step.StartWithRow? ==> t.runs[r].finishes == 0)
            && (!step.StartWithRow? ==> t.runs[r].status == Error && t.runs[r].finishes == 1)
  {
  }

  /** A row says success exactly when the execution that owned it recorded one. */
  lemma {:induction false} SuccessIff(steps: seq<Step>, states: seq<State>, n: nat, r: nat)
    requires IsRun(steps, states) && n <= |steps|
    ensures r in states[n].runs && states[n].runs[r].status == Success <==>
            exists m: nat :: m < n && steps[m].RecordSuccess? && Owns(states[m], steps[m].exec, r)
  {
    if n > 0 {
      var s, step := states[n - 1], steps[n - 1];
      SuccessIff(steps, states, n - 1, r);
      RunInv(steps, states, n - 1);
      assert states[n - 1 + 1] == Apply(s, step);
      if r in s.runs {
        StepSettlesRow(s, step, r);
      } else if r in states[n].runs {
        NewRowSays(s, step, r);
      }
      if step.RecordSuccess? && Owns(s, step.exec, r) {
        assert n - 1 < n;
      }
    }
  }

  /** And only an execution whose body returned records one. */
  lemma {:induction false} BodyReturnedBefore(steps: seq<Step>, states: seq<State>, n: nat, c: nat)
    requires IsRun(steps, states) && n <= |steps| && c in states[n].execs && states[n].execs[c].BodyDone?
    ensures exists m: nat :: m < n && steps[m] == BodyReturns(c)
  {
    if n > 0 {
      assert states[n - 1 + 1] == Apply(states[n - 1], steps[n - 1]);
      if steps[n - 1] != BodyReturns(c) {
        BodyReturnedBefore(steps, states, n - 1, c);
      }
    }
  }

  /** An execution begins only while no other holds its task's id, which it then takes; with the id taken it ends
      at once. */
  lemma BeginTakesId(s: State, c: nat)
    requires Inv(s) && Enabled(s, Begin(c))
    ensures var (t, task) := (Apply(s, Begin(c)), s.execs[c].task);
            if task in s.runningIds then c !in t.execs && t.runningIds == s.runningIds
            else c in t.execs && t.execs[c] == Loading(task) && t.runningIds == s.runningIds + {task}
  {
  }

  /** However an execution ends, it is gone and its task's id, and no other, is free again. */
  lemma EndReleasesId(s: State, step: Step)
    requires Inv(s) && Enabled(s, step)
    requires step.GiveUp? || step.UnknownKey? || step.RecordSuccess? || step.RecordError? || step.RecordErrorFails? || step.Cancel?
    ensures var t := Apply(s, step);
            && t.execs == s.execs - {step.exec}
            && t.runningIds == if s.execs[step.exec].Active() then s.runningIds - {s.execs[step.exec].task} else s.runningIds
  {
  }

  /** No execution waits for another: each can take every step its own code allows, with any fresh row. */
  lemma ExecutionsProceed(s: State, c: nat, r: nat, task: int)
    requires r !in s.runs
    ensures c !in s.execs && task !in s.runningIds ==> Enabled(s, Spawn(c, task))
    ensures c in s.execs ==>
              && Enabled(s, Cancel(c))
              && match s.execs[c]
                 case Spawned(_) => Enabled(s, Begin(c))
                 case Loading(_) =>
                   && Enabled(s, GiveUp(c)) && Enabled(s, UnknownKey(c, r))
                   && Enabled(s, StartWithRow(c, r)) && Enabled(s, StartWithoutRow(c))
                 case InBody(_, _) => Enabled(s, BodyReturns(c)) && Enabled(s, BodyRaises(c))
                 case BodyDone(_, _) => Enabled(s, RecordSuccess(c)) && Enabled(s, RecordSuccessFails(c))
                 case BodyFailed(_, _) => Enabled(s, RecordError(c, r)) && Enabled(s, RecordErrorFails(c))
    ensures Enabled(s, Restart)
  {
  }
}
