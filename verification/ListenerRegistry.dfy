/**
 The registry of live listeners under interleaved coroutines.  Each step is what one coroutine does
 between two awaits; restarts of an instance hold that instance's lock, bare stops do not.
 */
module ListenerRegistry {
  import opened Options

  /** A cancelled task runs on until it notices; only an uncancelled one counts as live. */
  datatype Status = Live | Cancelled | Done
  datatype Task = Task(instance: int, status: Status)

  /** A suspended restart or stop. */
  datatype Coroutine =
    | WaitingForLock(instance: int)
    | AwaitingOld(instance: int, task: nat)
    | InFactory(instance: int)
    | AboutToStore(instance: int, task: nat)
    | BareStop(instance: int, task: nat)
  {
    /** Past `async with _lock_for(instance_id)`. */
    predicate Locked() {
      AwaitingOld? || InFactory? || AboutToStore?
    }
  }

  datatype State = State(
    listeners: map<int, nat>,
    locks: map<int, nat>,
    tasks: map<nat, Task>,
    running: map<nat, Coroutine>)

  datatype Step =
    | Restart(co: nat, instance: int)
    | Acquire(co: nat)
    | OldEnded(co: nat)
    | FactoryFails(co: nat)
    | FactoryCreates(co: nat, task: nat)
    | StoreTask(co: nat)
    | Stop(co: nat, instance: int)
    | StopEnded(co: nat)
    | TaskEnds(task: nat)

  function IsLive(s: State, t: nat): bool {
    t in s.tasks && s.tasks[t].status.Live?
  }

  /** The synchronous part of `stop`: pop the entry and cancel it unless it is done. */
  function PopAndCancel(s: State, i: int): State {
    if i !in s.listeners then s
    else
      var t := s.listeners[i];
      s.(listeners := s.listeners - {i},
         tasks := if IsLive(s, t) then s.tasks[t := s.tasks[t].(status := Cancelled)] else s.tasks)
  }

  predicate HasLiveListener(s: State, i: int) {
    i in s.listeners && IsLive(s, s.listeners[i])
  }

  predicate Enabled(s: State, step: Step) {
    match step
    case Restart(c, _) => c !in s.running
    case Acquire(c) => c in s.running && s.running[c].WaitingForLock? && s.running[c].instance !in s.locks
    case OldEnded(c) =>
      c in s.running && s.running[c].AwaitingOld? && s.running[c].task in s.tasks && s.tasks[s.running[c].task].status.Done?
    case FactoryFails(c) => c in s.running && s.running[c].InFactory?
    case FactoryCreates(c, t) => c in s.running && s.running[c].InFactory? && t !in s.tasks
    case StoreTask(c) => c in s.running && s.running[c].AboutToStore?
    case Stop(c, _) => c !in s.running
    case StopEnded(c) =>
      c in s.running && s.running[c].BareStop? && s.running[c].task in s.tasks && s.tasks[s.running[c].task].status.Done?
    case TaskEnds(t) => t in s.tasks
  }

  function Apply(s: State, step: Step): State
    requires Enabled(s, step)
  {
    match step
    case Restart(c, i) => s.(running := s.running[c := WaitingForLock(i)])
    case Acquire(c) =>
      var i := s.running[c].instance;
      var next := if HasLiveListener(s, i) then AwaitingOld(i, s.listeners[i]) else InFactory(i);
      PopAndCancel(s, i).(locks := s.locks[i := c], running := s.running[c := next])
    case OldEnded(c) => s.(running := s.running[c := InFactory(s.running[c].instance)])
    case FactoryFails(c) => s.(locks := s.locks - {s.running[c].instance}, running := s.running - {c})
    case FactoryCreates(c, t) =>
      var i := s.running[c].instance;
      s.(tasks := s.tasks[t := Task(i, Live)], running := s.running[c := AboutToStore(i, t)])
    case StoreTask(c) =>
      var q := s.running[c];
      s.(listeners := s.listeners[q.instance := q.task], locks := s.locks - {q.instance}, running := s.running - {c})
    case Stop(c, i) =>
      var popped := PopAndCancel(s, i);
      if HasLiveListener(s, i) then popped.(running := s.running[c := BareStop(i, s.listeners[i])]) else popped
    case StopEnded(c) => s.(running := s.running - {c})
    case TaskEnds(t) => s.(tasks := s.tasks[t := s.tasks[t].(status := Done)])
  }

  /** After startup: every tracked task belongs to its instance, and nothing else is live. */
  ghost predicate Started(s: State) {
    && s.locks == map[] && s.running == map[]
    && (forall i :: i in s.listeners ==> s.listeners[i] in s.tasks && s.tasks[s.listeners[i]].instance == i)
    && (forall t :: t in s.tasks ==> !s.tasks[t].status.Cancelled?)
    && (forall t :: IsLive(s, t) ==> s.tasks[t].instance in s.listeners && s.listeners[s.tasks[t].instance] == t)
  }

  // ----- the invariant -----

  /** The lock of an instance is held by exactly the one coroutine inside it. */
  ghost predicate LocksHeld(s: State) {
    && (forall i :: i in s.locks ==> s.locks[i] in s.running && s.running[s.locks[i]].Locked() && s.running[s.locks[i]].instance == i)
    && (forall c :: c in s.running && s.running[c].Locked() ==>
          s.running[c].instance in s.locks && s.locks[s.running[c].instance] == c)
  }

  /** While a restart is inside the lock its instance has no registry entry. */
  ghost predicate NoEntryWhileLocked(s: State) {
    forall i :: i in s.locks ==> i !in s.listeners
  }

  /** Tasks are owned by the registry or by the restart about to store them. */
  ghost predicate Owned(s: State) {
    && (forall i :: i in s.listeners ==> s.listeners[i] in s.tasks && s.tasks[s.listeners[i]].instance == i)
    && (forall c :: c in s.running && s.running[c].AboutToStore? ==>
          s.running[c].task in s.tasks && s.tasks[s.running[c].task].instance == s.running[c].instance)
    && (forall t :: IsLive(s, t) ==> OwnedTask(s, t))
  }

  ghost predicate OwnedTask(s: State, t: nat)
    requires t in s.tasks
  {
    var i := s.tasks[t].instance;
    || (i in s.listeners && s.listeners[i] == t)
    || (i in s.locks && s.locks[i] in s.running && s.running[s.locks[i]] == AboutToStore(i, t))
  }

  ghost predicate Inv(s: State) {
    LocksHeld(s) && NoEntryWhileLocked(s) && Owned(s)
  }

  lemma PopKeepsOwned(s: State, i: int)
    requires Inv(s)
    ensures Inv(PopAndCancel(s, i))
    ensures forall t :: IsLive(PopAndCancel(s, i), t) ==> s.tasks[t].instance != i || i in s.locks
  {
    var p := PopAndCancel(s, i);
    forall t | IsLive(p, t)
      ensures OwnedTask(p, t) && (s.tasks[t].instance != i || i in s.locks)
    {
      assert IsLive(s, t) && OwnedTask(s, t);
    }
  }

  lemma AcquireInv(s: State, c: nat)
    requires Inv(s) && Enabled(s, Acquire(c))
    ensures Inv(Apply(s, Acquire(c)))
  {
    var i := s.running[c].instance;
    var p, after := PopAndCancel(s, i), Apply(s, Acquire(c));
    PopKeepsOwned(s, i);
    forall t | IsLive(after, t)
      ensures OwnedTask(after, t)
    {
      assert IsLive(p, t) && OwnedTask(p, t);
      assert s.tasks[t].instance != i;
    }
  }

  lemma StoreInv(s: State, c: nat)
    requires Inv(s) && Enabled(s, StoreTask(c))
    ensures Inv(Apply(s, StoreTask(c)))
  {
    var after := Apply(s, StoreTask(c));
    forall t | IsLive(after, t)
      ensures OwnedTask(after, t)
    {
      assert IsLive(s, t) && OwnedTask(s, t);
    }
  }

  lemma CreateInv(s: State, c: nat, t: nat)
    requires Inv(s) && Enabled(s, FactoryCreates(c, t))
    ensures Inv(Apply(s, FactoryCreates(c, t)))
  {
    var after := Apply(s, FactoryCreates(c, t));
    forall u | IsLive(after, u)
      ensures OwnedTask(after, u)
    {
      if u != t {
        assert IsLive(s, u) && OwnedTask(s, u);
      }
    }
  }

  /** Steps that create no task and no entry. */
  lemma QuietInv(s: State, after: State)
    requires Inv(s) && after.listeners == s.listeners && LocksHeld(after) && NoEntryWhileLocked(after)
    requires forall t :: t in after.tasks <==> t in s.tasks
    requires forall t :: t in s.tasks ==> after.tasks[t].instance == s.tasks[t].instance
    requires forall t :: IsLive(after, t) ==> IsLive(s, t)
    requires forall c, i, t :: c in s.running && s.running[c] == AboutToStore(i, t) <==>
                               c in after.running && after.running[c] == AboutToStore(i, t)
    requires forall i :: i in s.locks && s.running[s.locks[i]].AboutToStore? ==> i in after.locks && after.locks[i] == s.locks[i]
    ensures Inv(after)
  {
    forall c | c in after.running && after.running[c].AboutToStore?
      ensures after.running[c].task in after.tasks && after.tasks[after.running[c].task].instance == after.running[c].instance
    {
      var q := after.running[c];
      assert c in s.running && s.running[c] == AboutToStore(q.instance, q.task);
    }
    forall t | IsLive(after, t)
      ensures OwnedTask(after, t)
    {
      assert OwnedTask(s, t);
    }
  }

  lemma StopInv(s: State, c: nat, i: int)
    requires Inv(s) && Enabled(s, Stop(c, i))
    ensures Inv(Apply(s, Stop(c, i)))
  {
    PopKeepsOwned(s, i);
    var popped := PopAndCancel(s, i);
    if HasLiveListener(s, i) {
      AddIdleInv(popped, c, BareStop(i, s.listeners[i]));
    }
  }

  /** A coroutine outside the lock changes nothing. */
  lemma AddIdleInv(s: State, c: nat, q: Coroutine)
    requires Inv(s) && c !in s.running && !q.Locked()
    ensures Inv(s.(running := s.running[c := q]))
  {
    QuietInv(s, s.(running := s.running[c := q]));
  }

  lemma DropIdleInv(s: State, c: nat)
    requires Inv(s) && c in s.running && !s.running[c].Locked()
    ensures Inv(s.(running := s.running - {c}))
  {
    QuietInv(s, s.(running := s.running - {c}));
  }

  lemma OldEndedInv(s: State, c: nat)
    requires Inv(s) && Enabled(s, OldEnded(c))
    ensures Inv(Apply(s, OldEnded(c)))
  {
    QuietInv(s, Apply(s, OldEnded(c)));
  }

  lemma FactoryFailsInv(s: State, c: nat)
    requires Inv(s) && Enabled(s, FactoryFails(c))
    ensures Inv(Apply(s, FactoryFails(c)))
  {
    QuietInv(s, Apply(s, FactoryFails(c)));
  }

  lemma TaskEndsInv(s: State, t: nat)
    requires Inv(s) && Enabled(s, TaskEnds(t))
    ensures Inv(Apply(s, TaskEnds(t)))
  {
    QuietInv(s, Apply(s, TaskEnds(t)));
  }

  lemma StepInv(s: State, step: Step)
    requires Inv(s) && Enabled(s, step)
    ensures Inv(Apply(s, step))
  {
    match step
    case Restart(c, i) => AddIdleInv(s, c, WaitingForLock(i));
    case Acquire(c) => AcquireInv(s, c);
    case OldEnded(c) => OldEndedInv(s, c);
    case FactoryFails(c) => FactoryFailsInv(s, c);
    case FactoryCreates(c, t) => CreateInv(s, c, t);
    case StoreTask(c) => StoreInv(s, c);
    case Stop(c, i) => StopInv(s, c, i);
    case StopEnded(c) => DropIdleInv(s, c);
    case TaskEnds(t) => TaskEndsInv(s, t);
  }

  // ----- the theorem -----

  /** The states of a run from a started registry. */
  ghost predicate IsRun(steps: seq<Step>, states: seq<State>) {
    && |states| == |steps| + 1 && Started(states[0])
    && forall n :: 0 <= n < |steps| ==> Enabled(states[n], steps[n]) && states[n + 1] == Apply(states[n], steps[n])
  }

  lemma {:induction false} RunInv(steps: seq<Step>, states: seq<State>, n: nat)
    requires IsRun(steps, states) && n <= |steps|
    ensures Inv(states[n])
  {
    if n > 0 {
      RunInv(steps, states, n - 1);
      assert states[n - 1 + 1] == Apply(states[n - 1], steps[n - 1]);
      StepInv(states[n - 1], steps[n - 1]);
    }
  }

  /** In every reachable state each instance has at most one live uncancelled listener, and that one is in the
      registry or held by the lock holder about to store it. */
  lemma AtMostOneListener(steps: seq<Step>, states: seq<State>, n: nat, t: nat, u: nat)
    requires IsRun(steps, states) && n <= |steps|
    requires IsLive(states[n], t) && IsLive(states[n], u)
    ensures OwnedTask(states[n], t)
    ensures states[n].tasks[t].instance == states[n].tasks[u].instance ==> t == u
  {
    RunInv(steps, states, n);
    assert OwnedTask(states[n], t) && OwnedTask(states[n], u);
  }

  /** Storing a listener never overwrites an entry, live or not. */
  lemma StoringOverwritesNothing(steps: seq<Step>, states: seq<State>, n: nat, c: nat)
    requires IsRun(steps, states) && n <= |steps|
    requires Enabled(states[n], StoreTask(c))
    ensures states[n].running[c].instance !in states[n].listeners
  {
    RunInv(steps, states, n);
  }

  /** Once no restart is under way, the registry knows every live listener: shutdown stops them all. */
  lemma IdleRegistryIsComplete(steps: seq<Step>, states: seq<State>, n: nat, t: nat)
    requires IsRun(steps, states) && n <= |steps|
    requires states[n].locks == map[] && IsLive(states[n], t)
    ensures HasLiveListener(states[n], states[n].tasks[t].instance)
    ensures states[n].listeners[states[n].tasks[t].instance] == t
  {
    RunInv(steps, states, n);
    assert OwnedTask(states[n], t);
  }

  // ----- what stopping and restarting do -----

  /** The instance has no entry any more, and whatever listened for it has been cancelled; no other entry and no
      other task is touched. */
  ghost predicate Stopped(s: State, t: State, i: int) {
    && t.listeners == s.listeners - {i}
    && (forall u :: u in t.tasks <==> u in s.tasks)
    && (forall u :: u in s.tasks ==>
          t.tasks[u] == if HasLiveListener(s, i) && u == s.listeners[i] then Task(s.tasks[u].instance, Cancelled) else s.tasks[u])
  }

  /** A stop removes and cancels the instance's listener and waits for it when it was live.  With no restart of the
      instance inside its lock, no live listener of the instance is left anywhere. */
  lemma StopStops(s: State, c: nat, i: int)
    requires Inv(s) && Enabled(s, Stop(c, i))
    ensures var t := Apply(s, Stop(c, i));
            && Stopped(s, t, i)
            && (HasLiveListener(s, i) ==> c in t.running && t.running[c] == BareStop(i, s.listeners[i]))
            && (!HasLiveListener(s, i) ==> t.running == s.running)
            && (i !in s.locks ==> forall u :: IsLive(t, u) ==> t.tasks[u].instance != i)
  {
    PopKeepsOwned(s, i);
  }

  /** A restart that gets the lock first stops what is running, and no live listener of the instance is left; it
      waits for one that was live before it builds a new one. */
  lemma AcquireStops(s: State, c: nat)
    requires Inv(s) && Enabled(s, Acquire(c))
    ensures var (t, i) := (Apply(s, Acquire(c)), s.running[c].instance);
            && Stopped(s, t, i) && i in t.locks && t.locks[i] == c
            && (forall u :: IsLive(t, u) ==> t.tasks[u].instance != i)
            && t.running[c] == if HasLiveListener(s, i) then AwaitingOld(i, s.listeners[i]) else InFactory(i)
  {
    PopKeepsOwned(s, s.running[c].instance);
  }

  /** It goes on to build one only when the listener it waits for has ended. */
  lemma OldListenerHasEnded(s: State, c: nat)
    requires Inv(s) && Enabled(s, OldEnded(c))
    ensures s.tasks[s.running[c].task].status == Done
    ensures Apply(s, OldEnded(c)).running[c] == InFactory(s.running[c].instance)
  {
  }

  /** The factory's listener is a new live one of the instance; storing it registers it and gives the lock back,
      and a failing factory gives it back with nothing registered. */
  lemma RestartRegisters(s: State, c: nat, task: nat)
    requires Inv(s)
    ensures Enabled(s, FactoryCreates(c, task)) ==>
              var t := Apply(s, FactoryCreates(c, task));
              && IsLive(t, task) && t.tasks[task].instance == s.running[c].instance
              && t.running[c] == AboutToStore(s.running[c].instance, task) && t.listeners == s.listeners
    ensures Enabled(s, StoreTask(c)) ==>
              var (t, q) := (Apply(s, StoreTask(c)), s.running[c]);
              && t.listeners == s.listeners[q.instance := q.task] && t.tasks == s.tasks
              && t.locks == s.locks - {q.instance} && c !in t.running
    ensures Enabled(s, FactoryFails(c)) ==>
              var t := Apply(s, FactoryFails(c));
              && t.listeners == s.listeners && t.tasks == s.tasks
              && t.locks == s.locks - {s.running[c].instance} && c !in t.running
  {
  }

  /** A coroutine waits for nothing but its instance's lock and the end of the listener it cancelled. */
  lemma CoroutinesProceed(s: State, c: nat, task: nat, i: int)
    requires Inv(s) && task !in s.tasks
    ensures c !in s.running ==> Enabled(s, Restart(c, i)) && Enabled(s, Stop(c, i))
    ensures c in s.running ==>
              match s.running[c]
              case WaitingForLock(j) => j !in s.locks ==> Enabled(s, Acquire(c))
              case AwaitingOld(_, prior) => prior in s.tasks && s.tasks[prior].status == Done ==> Enabled(s, OldEnded(c))
              case InFactory(_) => Enabled(s, FactoryFails(c)) && Enabled(s, FactoryCreates(c, task))
              case AboutToStore(_, _) => Enabled(s, StoreTask(c))
              case BareStop(_, prior) => prior in s.tasks && s.tasks[prior].status == Done ==> Enabled(s, StopEnded(c))
    ensures forall u :: u in s.tasks ==> Enabled(s, TaskEnds(u)) && Apply(s, TaskEnds(u)).tasks[u].status == Done
  {
  }
}
