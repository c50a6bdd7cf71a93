/**
 The idle detector (include/idle_detector.inl, src/idle_detector.cpp) as a state machine: one
 controller calls `enable` and `disable`, any number of threads call `ping` and `exclude`, and
 the workers started by `enable` wait on the condition variable with a timeout. Every step is one
 atomic action of one thread; wakeups may be spurious and the lock may be regained late.
 */
module IdleDetector {

  type Time = int
  type Thread = nat
  type Path = string

  // ---------------------------------------------------------------- state

  /** Where a worker is in its loop; `deadline` is what wait_for computed for this iteration. */
  datatype Worker =
    | Starting                              // about to take the lock
    | Entering                              // has the lock, about to call wait_for
    | Checking(deadline: Time)              // has the lock, evaluates the predicate
    | Sleeping(deadline: Time, notified: bool)
    | Waking(deadline: Time, timedOut: bool) // awake, wants the lock back
    | Deciding(deadline: Time)              // has the lock after a timeout, evaluates the predicate
    | Stopping(deadline: Time)              // has the lock, committed to main_loop::stop
    | Consuming                             // has the lock, wait_for returned true
    | Finished

  datatype Ping = Wanting(path: Path) | Holding(path: Path) | Notifying

  datatype Controller =
    | Free
    | Enabling(timeout: Time) | Spawning(timeout: Time) | Assigning
    | Disabling | HoldingLock | NotifyingStop | Joining

  datatype Owner = Nobody | ByWorker(i: nat) | ByPing(t: Thread) | ByController

  /** What an observer sees happen, in order. */
  datatype Event =
    | Enabled(worker: nat, at: Time, timeout: Time)
    | Began(worker: nat, at: Time)        // an iteration calls wait_for
    | Pinged(thread: Thread, path: Path)  // an accepted ping raises the flag
    | Excluded(path: Path)                // pings for this object no longer count
    | Continued(worker: nat)              // an iteration lowers the flag and goes on
    | Quit(worker: nat)                   // an iteration lowers the flag and leaves
    | StopCalled(worker: nat, at: Time)   // main_loop::stop
    | StopSet(worker: nat)                // disable raises stop_ under the lock

  /** `workers` are all those ever started, `timeouts` theirs; the last one belongs to
      `idle_future_`. */
  datatype State = State(
    now: Time, requestPing: bool, stop: bool, futureValid: bool, excluded: set<Path>, mutex: Owner,
    workers: seq<Worker>, timeouts: seq<Time>, pings: map<Thread, Ping>, controller: Controller, log: seq<Event>)

  const INITIAL := State(0, false, false, false, {}, Nobody, [], [], map[], Free, [])

  // ---------------------------------------------------------------- steps

  datatype Step =
    | Tick(d: nat)
    | Lock(i: nat) | CallWaitFor(i: nat) | Check(i: nat) | Wake(i: nat, timedOut: bool) | Relock(i: nat)
    | Decide(i: nat) | CallStop(i: nat) | Consume(i: nat)
    | PingCall(t: Thread, path: Path) | PingLock(t: Thread) | PingSet(t: Thread) | PingNotify(t: Thread)
    | Exclude(path: Path)
    | EnableCall(timeout: Time) | ClearStop | Spawn | Assign
    | DisableCall | DisableLock | SetStop | NotifyStop | Join

  predicate Flag(s: State) {
    s.requestPing || s.stop
  }

  predicate CanStep(s: State, step: Step) {
    match step
    case Tick(_) => true
    case Lock(i) => i < |s.workers| && s.workers[i] == Starting && s.mutex == Nobody
    case CallWaitFor(i) => i < |s.workers| && |s.timeouts| == |s.workers| && s.workers[i] == Entering
    case Check(i) => i < |s.workers| && s.workers[i].Checking?
    case Wake(i, timedOut) =>
      i < |s.workers| && s.workers[i].Sleeping? && (timedOut ==> s.workers[i].deadline <= s.now)
    case Relock(i) => i < |s.workers| && s.workers[i].Waking? && s.mutex == Nobody
    case Decide(i) => i < |s.workers| && s.workers[i].Deciding?
    case CallStop(i) => i < |s.workers| && s.workers[i].Stopping?
    case Consume(i) => i < |s.workers| && s.workers[i] == Consuming
    case PingCall(t, _) => t !in s.pings
    case PingLock(t) => t in s.pings && s.pings[t].Wanting? && s.mutex == Nobody
    case PingSet(t) => t in s.pings && s.pings[t].Holding?
    case PingNotify(t) => t in s.pings && s.pings[t].Notifying?
    case Exclude(_) => s.mutex == Nobody
    case EnableCall(_) => s.controller == Free
    case ClearStop => s.controller.Enabling?
    case Spawn => s.controller.Spawning?
    case Assign => s.controller == Assigning
    case DisableCall => s.controller == Free
    case DisableLock => s.controller == Disabling && s.mutex == Nobody
    case SetStop => s.controller == HoldingLock && |s.workers| > 0
    case NotifyStop => s.controller == NotifyingStop
    case Join => s.controller == Joining && |s.workers| > 0 && s.workers[|s.workers| - 1] == Finished
  }

  /** `notify_all`: whoever sleeps now will find itself notified. */
  function NotifyAll(workers: seq<Worker>): seq<Worker> {
    seq(|workers|, i requires 0 <= i < |workers| =>
      if workers[i].Sleeping? then Sleeping(workers[i].deadline, true) else workers[i])
  }

  function Next(s: State, step: Step): State
    requires CanStep(s, step)
  {
    match step
    case Tick(d) => s.(now := s.now + d)
    // The worker.
    case Lock(i) => s.(workers := s.workers[i := Entering], mutex := ByWorker(i))
    case CallWaitFor(i) =>
      s.(workers := s.workers[i := Checking(s.now + s.timeouts[i])], log := s.log + [Began(i, s.now)])
    case Check(i) =>
      if Flag(s) then s.(workers := s.workers[i := Consuming])
      else s.(workers := s.workers[i := Sleeping(s.workers[i].deadline, false)], mutex := Nobody)
    case Wake(i, timedOut) => s.(workers := s.workers[i := Waking(s.workers[i].deadline, timedOut)])
    case Relock(i) =>
      var d := s.workers[i].deadline;
      s.(workers := s.workers[i := if s.workers[i].timedOut then Deciding(d) else Checking(d)], mutex := ByWorker(i))
    case Decide(i) => s.(workers := s.workers[i := if Flag(s) then Consuming else Stopping(s.workers[i].deadline)])
    case CallStop(i) =>
      s.(workers := s.workers[i := Finished], mutex := Nobody, log := s.log + [StopCalled(i, s.now)])
    case Consume(i) =>
      if s.stop then
        s.(workers := s.workers[i := Finished], requestPing := false, mutex := Nobody, log := s.log + [Quit(i)])
      else
        s.(workers := s.workers[i := Starting], requestPing := false, mutex := Nobody, log := s.log + [Continued(i)])
    // Threads that ping and exclude.
    case PingCall(t, path) => if s.futureValid then s.(pings := s.pings[t := Wanting(path)]) else s
    case PingLock(t) => s.(pings := s.pings[t := Holding(s.pings[t].path)], mutex := ByPing(t))
    case PingSet(t) =>
      if s.pings[t].path in s.excluded then s.(pings := s.pings - {t}, mutex := Nobody)
      else s.(pings := s.pings[t := Notifying], requestPing := true, mutex := Nobody,
              log := s.log + [Pinged(t, s.pings[t].path)])
    case PingNotify(t) => s.(pings := s.pings - {t}, workers := NotifyAll(s.workers))
    case Exclude(path) => s.(excluded := s.excluded + {path}, log := s.log + [Excluded(path)])
    // The controller.
    case EnableCall(timeout) => if s.futureValid then s else s.(controller := Enabling(timeout))
    case ClearStop => s.(stop := false, controller := Spawning(s.controller.timeout))
    case Spawn =>
      var timeout := s.controller.timeout;
      s.(workers := s.workers + [Starting], timeouts := s.timeouts + [timeout], controller := Assigning,
         log := s.log + [Enabled(|s.workers|, s.now, timeout)])
    case Assign => s.(futureValid := true, controller := Free)
    case DisableCall => if s.futureValid then s.(controller := Disabling) else s
    case DisableLock => s.(controller := HoldingLock, mutex := ByController)
    case SetStop =>
      s.(stop := true, controller := NotifyingStop, mutex := Nobody, log := s.log + [StopSet(|s.workers| - 1)])
    case NotifyStop => s.(controller := Joining, workers := NotifyAll(s.workers))
    case Join => s.(futureValid := false, controller := Free)
  }

  ghost predicate Reaches(s: State, steps: seq<Step>, s': State)
    decreases |steps|
  {
    if steps == [] then s == s' else CanStep(s, steps[0]) && Reaches(Next(s, steps[0]), steps[1..], s')
  }

  // ---------------------------------------------------------------- who holds the lock, who is live

  predicate HasLock(w: Worker) {
    w.Entering? || w.Checking? || w.Deciding? || w.Stopping? || w.Consuming?
  }

  ghost predicate WorkersLock(s: State) {
    && (forall i | 0 <= i < |s.workers| :: HasLock(s.workers[i]) <==> s.mutex == ByWorker(i))
    && (s.mutex.ByWorker? ==> s.mutex.i < |s.workers|)
  }

  ghost predicate PingsLock(s: State) {
    && (forall t | t in s.pings :: s.pings[t].Holding? <==> s.mutex == ByPing(t))
    && (s.mutex.ByPing? ==> s.mutex.t in s.pings)
  }

  /** The mutex excludes: whoever is in a critical section owns it. */
  ghost predicate LockInv(s: State) {
    WorkersLock(s) && PingsLock(s) && (s.controller == HoldingLock <==> s.mutex == ByController)
  }

  /** Only the last worker can be live, and only while the future is valid or about to be. */
  ghost predicate LiveInv(s: State) {
    && |s.timeouts| == |s.workers|
    && (forall i | 0 <= i < |s.workers| - 1 :: s.workers[i] == Finished)
    && (s.futureValid || s.controller == Assigning ==> |s.workers| > 0)
    && (!s.futureValid && s.controller != Assigning ==> forall i | 0 <= i < |s.workers| :: s.workers[i] == Finished)
    && (s.controller.Enabling? || s.controller.Spawning? || s.controller.Assigning? ==> !s.futureValid)
    && (s.controller in {Disabling, HoldingLock, NotifyingStop, Joining} ==> s.futureValid)
    && (s.controller in {NotifyingStop, Joining} ==> s.stop)
  }

  /** What a worker knows where it stands. */
  ghost predicate WorkerInv(s: State) {
    forall i | 0 <= i < |s.workers| ::
      match s.workers[i]
      case Waking(d, timedOut) => timedOut ==> d <= s.now
      case Deciding(d) => d <= s.now
      case Stopping(d) => d <= s.now && !Flag(s)
      case Consuming => Flag(s)
      case _ => true
  }

  ghost predicate AsleepUnnotified(s: State, i: int) {
    0 <= i < |s.workers| && s.workers[i].Sleeping? && !s.workers[i].notified
  }

  ghost predicate AboutToNotify(s: State, t: Thread) {
    t in s.pings && s.pings[t] == Notifying
  }

  /** No lost wakeup: a worker asleep and not notified while the flag is up has a notification
      coming, from a ping or from `disable`. */
  ghost predicate WakeInv(s: State) {
    Flag(s) && (exists i :: AsleepUnnotified(s, i)) ==>
      s.controller == NotifyingStop || exists t :: AboutToNotify(s, t)
  }

  predicate OfWorker(step: Step) {
    step.Lock? || step.CallWaitFor? || step.Check? || step.Wake? || step.Relock? || step.Decide? || step.CallStop?
    || step.Consume?
  }

  lemma LockStep(s: State, step: Step)
    requires LockInv(s) && CanStep(s, step)
    ensures LockInv(Next(s, step))
  {
    if OfWorker(step) { WorkersLockOwn(s, step); } else { WorkersLockOther(s, step); }
    PingsLockStep(s, step);
  }

  lemma WorkersLockOwn(s: State, step: Step)
    requires LockInv(s) && CanStep(s, step) && OfWorker(step)
    ensures WorkersLock(Next(s, step))
  {
    var s' := Next(s, step);
    assert forall j | 0 <= j < |s.workers| && j != step.i :: s'.workers[j] == s.workers[j];
  }

  lemma WorkersLockOther(s: State, step: Step)
    requires LockInv(s) && CanStep(s, step) && !OfWorker(step)
    ensures WorkersLock(Next(s, step))
  {
    var s' := Next(s, step);
    forall j | 0 <= j < |s.workers| ensures HasLock(s'.workers[j]) == HasLock(s.workers[j]) {
    }
  }

  lemma PingsLockStep(s: State, step: Step)
    requires LockInv(s) && CanStep(s, step)
    ensures PingsLock(Next(s, step))
    ensures Next(s, step).controller == HoldingLock <==> Next(s, step).mutex == ByController
  {
  }

  lemma LiveStep(s: State, step: Step)
    requires LiveInv(s) && CanStep(s, step)
    ensures LiveInv(Next(s, step))
  {
    if OfWorker(step) { LiveOwn(s, step); } else { LiveOther(s, step); }
  }

  lemma LiveOwn(s: State, step: Step)
    requires LiveInv(s) && CanStep(s, step) && OfWorker(step)
    ensures LiveInv(Next(s, step))
  {
    assert step.i == |s.workers| - 1;
  }

  lemma LiveOther(s: State, step: Step)
    requires LiveInv(s) && CanStep(s, step) && !OfWorker(step)
    ensures LiveInv(Next(s, step))
  {
  }

  lemma WorkerStep(s: State, step: Step)
    requires LockInv(s) && LiveInv(s) && WorkerInv(s) && CanStep(s, step)
    ensures WorkerInv(Next(s, step))
  {
    if OfWorker(step) { WorkerInvOwn(s, step); } else { WorkerInvOther(s, step); }
  }

  lemma WorkerInvOwn(s: State, step: Step)
    requires LockInv(s) && WorkerInv(s) && CanStep(s, step) && OfWorker(step)
    ensures WorkerInv(Next(s, step))
  {
    var s' := Next(s, step);
    assert forall j | 0 <= j < |s.workers| && j != step.i :: s'.workers[j] == s.workers[j];
    assert HasLock(s.workers[step.i]) ==> forall j | 0 <= j < |s.workers| && j != step.i :: !HasLock(s.workers[j]);
  }

  lemma WorkerInvOther(s: State, step: Step)
    requires LockInv(s) && LiveInv(s) && WorkerInv(s) && CanStep(s, step) && !OfWorker(step)
    ensures WorkerInv(Next(s, step))
  {
  }

  lemma WakeStep(s: State, step: Step)
    requires LockInv(s) && WakeInv(s) && CanStep(s, step)
    ensures WakeInv(Next(s, step))
  {
    var s' := Next(s, step);
    if Flag(s') && exists i :: AsleepUnnotified(s', i) {
      var i :| AsleepUnnotified(s', i);
      if step.PingSet? && s'.pings != s.pings - {step.t} {
        assert AboutToNotify(s', step.t);
      } else if step.SetStop? {
      } else if step.PingNotify? || step.NotifyStop? {
        assert false;
      } else {
        assert AsleepUnnotified(s, i);
        if s.controller != NotifyingStop {
          var t :| AboutToNotify(s, t);
          assert AboutToNotify(s', t);
        }
      }
    }
  }

  // ---------------------------------------------------------------- the log

  predicate Consumption(e: Event) {
    e.Continued? || e.Quit?
  }

  /** The accepted ping logged at `p` has not been consumed by any worker yet. */
  ghost predicate Fresh(log: seq<Event>, p: int) {
    0 <= p < |log| && log[p].Pinged? && forall c | p < c < |log| :: !Consumption(log[c])
  }

  /** request_ping_ is up exactly when some accepted ping is still unconsumed. */
  ghost predicate FlagInv(s: State) {
    s.requestPing <==> exists p :: Fresh(s.log, p)
  }

  /** The events a step adds to the log: at most one. */
  ghost function Emitted(s: State, step: Step): (es: seq<Event>)
    requires CanStep(s, step)
    ensures |es| <= 1 && Next(s, step).log == s.log + es
  {
    match step
    case CallWaitFor(i) => [Began(i, s.now)]
    case CallStop(i) => [StopCalled(i, s.now)]
    case Consume(i) => [if s.stop then Quit(i) else Continued(i)]
    case PingSet(t) => if s.pings[t].path in s.excluded then [] else [Pinged(t, s.pings[t].path)]
    case Exclude(path) => [Excluded(path)]
    case Spawn => [Enabled(|s.workers|, s.now, s.controller.timeout)]
    case SetStop => [StopSet(|s.workers| - 1)]
    case _ => []
  }

  lemma FreshAppend(log: seq<Event>, e: Event, p: int)
    ensures Fresh(log + [e], p) <==> (Fresh(log, p) && !Consumption(e)) || (p == |log| && e.Pinged?)
  {
    var log' := log + [e];
    if Fresh(log', p) && p < |log| {
      assert !Consumption(log'[|log|]);
      assert forall c | p < c < |log| :: log'[c] == log[c];
    }
  }

  lemma FlagStep(s: State, step: Step)
    requires FlagInv(s) && CanStep(s, step)
    ensures FlagInv(Next(s, step))
  {
    var s' := Next(s, step);
    var es := Emitted(s, step);
    if es != [] {
      var e := es[0];
      assert s'.log == s.log + [e];
      forall p ensures Fresh(s'.log, p) <==> (Fresh(s.log, p) && !Consumption(e)) || (p == |s.log| && e.Pinged?) {
        FreshAppend(s.log, e, p);
      }
      if e.Pinged? { assert Fresh(s'.log, |s.log|); }
      if p :| Fresh(s.log, p) { assert Consumption(e) || Fresh(s'.log, p); }
    } else {
      assert s'.log == s.log;
    }
  }

  // ---------------------------------------------------------------- iterations

  /** The iteration of worker `i` that began at `b`, of a worker enabled at `e`, is still waiting
      for its deadline. */
  ghost predicate IterationOf(log: seq<Event>, i: nat, deadline: Time, e: int, b: int) {
    && 0 <= e < b < |log|
    && log[e].Enabled? && log[e].worker == i && log[b].Began? && log[b].worker == i
    && log[e].at <= log[b].at && deadline == log[b].at + log[e].timeout
    && forall c | b < c < |log| :: !Consumption(log[c])
  }

  predicate Waits(w: Worker) {
    w.Checking? || w.Sleeping? || w.Waking? || w.Deciding? || w.Stopping?
  }

  ghost predicate EnabledAt(s: State, i: nat, e: int) {
    && i < |s.timeouts| && 0 <= e < |s.log|
    && s.log[e].Enabled? && s.log[e].worker == i && s.log[e].timeout == s.timeouts[i] && s.log[e].at <= s.now
  }

  ghost predicate EnabledInv(s: State) {
    |s.timeouts| == |s.workers| && forall i: nat | i < |s.workers| :: WasEnabled(s, i)
  }

  ghost predicate WasEnabled(s: State, i: nat) {
    exists e :: EnabledAt(s, i, e)
  }

  ghost predicate IterationInv(s: State) {
    forall i: nat | i < |s.workers| && Waits(s.workers[i]) ::
      exists e, b :: IterationOf(s.log, i, s.workers[i].deadline, e, b)
  }

  lemma EnabledStep(s: State, step: Step)
    requires EnabledInv(s) && CanStep(s, step)
    ensures EnabledInv(Next(s, step))
  {
    var s' := Next(s, step);
    var es := Emitted(s, step);
    forall i: nat | i < |s'.workers| ensures WasEnabled(s', i) {
      if i < |s.workers| {
        assert WasEnabled(s, i);
        var e :| EnabledAt(s, i, e);
        assert s'.log[e] == s.log[e];
        assert EnabledAt(s', i, e);
      } else {
        assert EnabledAt(s', i, |s.log|);
      }
    }
  }

  lemma IterationAppend(log: seq<Event>, es: seq<Event>, i: nat, deadline: Time, e: int, b: int)
    requires IterationOf(log, i, deadline, e, b) && forall k | 0 <= k < |es| :: !Consumption(es[k])
    ensures IterationOf(log + es, i, deadline, e, b)
  {
  }

  lemma IterationStep(s: State, step: Step)
    requires LiveInv(s) && EnabledInv(s) && IterationInv(s) && CanStep(s, step)
    ensures IterationInv(Next(s, step))
  {
    var s' := Next(s, step);
    var es := Emitted(s, step);
    forall i: nat | i < |s'.workers| && Waits(s'.workers[i])
      ensures exists e, b :: IterationOf(s'.log, i, s'.workers[i].deadline, e, b)
    {
      if step == CallWaitFor(i) {
        assert WasEnabled(s, i);
        var e :| EnabledAt(s, i, e);
        assert IterationOf(s'.log, i, s'.workers[i].deadline, e, |s.log|);
      } else {
        StillWaits(s, step, i);
        var e, b :| IterationOf(s.log, i, s.workers[i].deadline, e, b);
        IterationAppend(s.log, es, i, s.workers[i].deadline, e, b);
      }
    }
  }

  /** A worker that waits after a step other than its own wait_for call waited before it, for the
      same deadline, and no worker consumed a ping meanwhile: only one worker is live. */
  lemma StillWaits(s: State, step: Step, i: nat)
    requires LiveInv(s) && CanStep(s, step) && step != CallWaitFor(i)
    requires i < |Next(s, step).workers| && Waits(Next(s, step).workers[i])
    ensures i < |s.workers| && Waits(s.workers[i]) && s.workers[i].deadline == Next(s, step).workers[i].deadline
    ensures forall k | 0 <= k < |Emitted(s, step)| :: !Consumption(Emitted(s, step)[k])
  {
    if OfWorker(step) { StillWaitsOwn(s, step, i); } else { StillWaitsOther(s, step, i); }
  }

  lemma StillWaitsOwn(s: State, step: Step, i: nat)
    requires LiveInv(s) && CanStep(s, step) && OfWorker(step) && step != CallWaitFor(i)
    requires i < |Next(s, step).workers| && Waits(Next(s, step).workers[i])
    ensures i < |s.workers| && Waits(s.workers[i]) && s.workers[i].deadline == Next(s, step).workers[i].deadline
    ensures !step.Consume?
  {
    assert step.i == |s.workers| - 1;
    assert i == step.i;
  }

  lemma StillWaitsOther(s: State, step: Step, i: nat)
    requires CanStep(s, step) && !OfWorker(step)
    requires i < |Next(s, step).workers| && Waits(Next(s, step).workers[i])
    ensures i < |s.workers| && Waits(s.workers[i]) && s.workers[i].deadline == Next(s, step).workers[i].deadline
  {
  }

  // ---------------------------------------------------------------- when the loop is stopped

  ghost predicate ConsumedBefore(log: seq<Event>, p: int, b: int) {
    exists c :: p < c < b && 0 <= c < |log| && Consumption(log[c])
  }

  /** The stop called at `k` ends an iteration that began at `b`, after the worker was enabled at
      `e`; at least the timeout passed in between, and every ping accepted before the stop was
      consumed before the iteration began. */
  ghost predicate StopWitness(log: seq<Event>, k: int, e: int, b: int) {
    && 0 <= e < b < k < |log| && log[k].StopCalled?
    && log[e].Enabled? && log[e].worker == log[k].worker && log[b].Began? && log[b].worker == log[k].worker
    && log[e].at <= log[b].at && log[b].at + log[e].timeout <= log[k].at
    && forall p | 0 <= p < k && log[p].Pinged? :: ConsumedBefore(log, p, b)
  }

  ghost predicate Justified(log: seq<Event>, k: int) {
    exists e, b :: StopWitness(log, k, e, b)
  }

  ghost predicate JustifiedInv(s: State) {
    forall k | 0 <= k < |s.log| && s.log[k].StopCalled? :: Justified(s.log, k)
  }

  lemma JustifiedAppend(log: seq<Event>, es: seq<Event>, k: int)
    requires Justified(log, k)
    ensures Justified(log + es, k)
  {
    var e, b :| StopWitness(log, k, e, b);
    var log' := log + es;
    forall p | 0 <= p < k && log'[p].Pinged? ensures ConsumedBefore(log', p, b) {
      assert log[p] == log'[p];
      var c :| p < c < b && 0 <= c < |log| && Consumption(log[c]);
      assert Consumption(log'[c]);
    }
    assert StopWitness(log', k, e, b);
  }

  lemma JustifiedStep(s: State, step: Step)
    requires WorkerInv(s) && FlagInv(s) && IterationInv(s) && JustifiedInv(s) && CanStep(s, step)
    ensures JustifiedInv(Next(s, step))
  {
    var s' := Next(s, step);
    var es := Emitted(s, step);
    forall k | 0 <= k < |s'.log| && s'.log[k].StopCalled? ensures Justified(s'.log, k) {
      if k < |s.log| {
        assert s'.log[k] == s.log[k];
        JustifiedAppend(s.log, es, k);
      } else {
        StopIsJustified(s, step.i);
      }
    }
  }

  lemma StopIsJustified(s: State, i: nat)
    requires WorkerInv(s) && FlagInv(s) && IterationInv(s) && CanStep(s, CallStop(i))
    ensures Justified(s.log + [StopCalled(i, s.now)], |s.log|)
  {
    var log' := s.log + [StopCalled(i, s.now)];
    var e, b :| IterationOf(s.log, i, s.workers[i].deadline, e, b);
    forall p | 0 <= p < |s.log| && log'[p].Pinged? ensures ConsumedBefore(log', p, b) {
      assert log'[p] == s.log[p] && !Fresh(s.log, p);
      var c :| p < c < |s.log| && Consumption(s.log[c]);
      assert Consumption(log'[c]);
    }
    assert StopWitness(log', |s.log|, e, b);
  }

  // ---------------------------------------------------------------- disable

  ghost predicate DisableInv(s: State) {
    && (forall p | 0 <= p < |s.log| && s.log[p].StopSet? ::
          s.log[p].worker < |s.workers| && (s.workers[s.log[p].worker] == Finished || s.stop))
    && forall p, k | 0 <= p < k < |s.log| && s.log[p].StopSet? && s.log[k].StopCalled? ::
      s.log[p].worker != s.log[k].worker
  }

  lemma DisableStep(s: State, step: Step)
    requires LiveInv(s) && WorkerInv(s) && DisableInv(s) && CanStep(s, step)
    ensures DisableInv(Next(s, step))
  {
    var s' := Next(s, step);
    var es := Emitted(s, step);
    forall p | 0 <= p < |s'.log| && s'.log[p].StopSet?
      ensures s'.log[p].worker < |s'.workers| && (s'.workers[s'.log[p].worker] == Finished || s'.stop)
    {
      if p < |s.log| { assert s'.log[p] == s.log[p]; }
    }
    forall p, k | 0 <= p < k < |s'.log| && s'.log[p].StopSet? && s'.log[k].StopCalled?
      ensures s'.log[p].worker != s'.log[k].worker
    {
      assert s'.log[p] == s.log[p];
      if k < |s.log| { assert s'.log[k] == s.log[k]; }
    }
  }

  // ---------------------------------------------------------------- exclude

  ghost predicate ExcludeInv(s: State) {
    && (forall p | 0 <= p < |s.log| && s.log[p].Excluded? :: s.log[p].path in s.excluded)
    && forall p, k | 0 <= p < k < |s.log| && s.log[p].Excluded? && s.log[k].Pinged? :: s.log[p].path != s.log[k].path
  }

  lemma ExcludeStep(s: State, step: Step)
    requires ExcludeInv(s) && CanStep(s, step)
    ensures ExcludeInv(Next(s, step))
  {
    var s' := Next(s, step);
    var es := Emitted(s, step);
    forall p | 0 <= p < |s'.log| && s'.log[p].Excluded? ensures s'.log[p].path in s'.excluded {
      if p < |s.log| { assert s'.log[p] == s.log[p]; }
    }
    forall p, k | 0 <= p < k < |s'.log| && s'.log[p].Excluded? && s'.log[k].Pinged?
      ensures s'.log[p].path != s'.log[k].path
    {
      assert s'.log[p] == s.log[p];
      if k < |s.log| { assert s'.log[k] == s.log[k]; }
    }
  }

  // ---------------------------------------------------------------- counting

  function Continues(log: seq<Event>): nat {
    if log == [] then 0 else Continues(log[..|log| - 1]) + if log[|log| - 1].Continued? then 1 else 0
  }

  function Accepted(log: seq<Event>): nat {
    if log == [] then 0 else Accepted(log[..|log| - 1]) + if log[|log| - 1].Pinged? then 1 else 0
  }

  function Raised(s: State): nat {
    if s.requestPing then 1 else 0
  }

  ghost predicate CountedFrom(s: State, e: int) {
    0 <= e <= |s.log| ==> Continues(s.log[e..]) + Raised(s) <= Accepted(s.log[e..]) + 1
  }

  ghost predicate CountInv(s: State) {
    Continues(s.log) + Raised(s) <= Accepted(s.log) && forall e :: CountedFrom(s, e)
  }

  lemma CountAppend(log: seq<Event>, e: Event)
    ensures Continues(log + [e]) == Continues(log) + if e.Continued? then 1 else 0
    ensures Accepted(log + [e]) == Accepted(log) + if e.Pinged? then 1 else 0
  {
    assert (log + [e])[..|log|] == log;
  }

  lemma CountStep(s: State, step: Step)
    requires WorkerInv(s) && CountInv(s) && CanStep(s, step)
    ensures CountInv(Next(s, step))
  {
    CountStepWhole(s, step);
    forall e ensures CountedFrom(Next(s, step), e) {
      assert CountedFrom(s, e);
      if Emitted(s, step) == [] {
        SilentStep(s, step);
      } else {
        CountStepFrom(s, step, e);
      }
    }
  }

  lemma SilentStep(s: State, step: Step)
    requires CanStep(s, step) && Emitted(s, step) == []
    ensures Next(s, step).log == s.log && Next(s, step).requestPing == s.requestPing
  {
  }

  lemma CountStepWhole(s: State, step: Step)
    requires WorkerInv(s) && CanStep(s, step) && Continues(s.log) + Raised(s) <= Accepted(s.log)
    ensures Continues(Next(s, step).log) + Raised(Next(s, step)) <= Accepted(Next(s, step).log)
  {
    if Emitted(s, step) == [] {
      SilentStep(s, step);
    } else {
      CountAppend(s.log, Emitted(s, step)[0]);
      assert Emitted(s, step) == [Emitted(s, step)[0]];
    }
  }

  lemma CountStepFrom(s: State, step: Step, e: int)
    requires WorkerInv(s) && CountedFrom(s, e) && CanStep(s, step) && Emitted(s, step) != []
    ensures CountedFrom(Next(s, step), e)
  {
    var s' := Next(s, step);
    var x := Emitted(s, step)[0];
    if 0 <= e <= |s.log| {
      assert s'.log[e..] == s.log[e..] + [x];
      CountAppend(s.log[e..], x);
    } else if e == |s.log| + 1 {
      assert s'.log[e..] == [];
    }
  }

  /** The iteration that continues at `k` consumed a ping no earlier iteration had consumed. */
  ghost predicate Fed(log: seq<Event>, k: int) {
    exists p :: 0 <= p < k < |log| && log[p].Pinged? && forall c | p < c < k :: !Consumption(log[c])
  }

  ghost predicate FedInv(s: State) {
    forall k | 0 <= k < |s.log| && s.log[k].Continued? :: Fed(s.log, k)
  }

  lemma FedStep(s: State, step: Step)
    requires WorkerInv(s) && FlagInv(s) && FedInv(s) && CanStep(s, step)
    ensures FedInv(Next(s, step))
  {
    var s' := Next(s, step);
    var es := Emitted(s, step);
    forall k | 0 <= k < |s'.log| && s'.log[k].Continued? ensures Fed(s'.log, k) {
      if k < |s.log| {
        assert s'.log[k] == s.log[k];
        var p :| 0 <= p < k < |s.log| && s.log[p].Pinged? && forall c | p < c < k :: !Consumption(s.log[c]);
        assert s'.log[p].Pinged?;
      } else {
        var p :| Fresh(s.log, p);
        assert s'.log[p].Pinged?;
      }
    }
  }

  // ---------------------------------------------------------------- all runs

  ghost predicate Inv(s: State) {
    && LockInv(s) && LiveInv(s) && WorkerInv(s) && WakeInv(s) && FlagInv(s) && EnabledInv(s) && IterationInv(s)
    && JustifiedInv(s) && DisableInv(s) && ExcludeInv(s) && CountInv(s) && FedInv(s)
  }

  lemma InvStep(s: State, step: Step)
    requires Inv(s) && CanStep(s, step)
    ensures Inv(Next(s, step))
  {
    LockStep(s, step);
    LiveStep(s, step);
    WorkerStep(s, step);
    WakeStep(s, step);
    FlagStep(s, step);
    EnabledStep(s, step);
    IterationStep(s, step);
    JustifiedStep(s, step);
    DisableStep(s, step);
    ExcludeStep(s, step);
    CountStep(s, step);
    FedStep(s, step);
  }

  lemma {:induction false} InvRun(s: State, steps: seq<Step>, s': State)
    requires Inv(s) && Reaches(s, steps, s')
    ensures Inv(s')
    decreases |steps|
  {
    if steps != [] {
      InvStep(s, steps[0]);
      InvRun(Next(s, steps[0]), steps[1..], s');
    }
  }

  lemma InvReachable(steps: seq<Step>, s: State)
    requires Reaches(INITIAL, steps, s)
    ensures Inv(s)
  {
    InvRun(INITIAL, steps, s);
  }

  /** main_loop::stop is called only at the end of an iteration that began after `enable`, lasted at
      least the timeout and during which no accepted ping raised the flag; every ping accepted
      before the stop had been consumed before that iteration began. */
  lemma StopsOnlyWhenIdle(steps: seq<Step>, s: State, k: nat) returns (e: nat, b: nat)
    requires Reaches(INITIAL, steps, s) && k < |s.log| && s.log[k].StopCalled?
    ensures StopWitness(s.log, k, e, b)
    ensures forall p | b <= p < k :: !s.log[p].Pinged?
  {
    InvReachable(steps, s);
    e, b :| StopWitness(s.log, k, e, b);
    forall p | b <= p < k ensures !s.log[p].Pinged? {
      assert s.log[p].Pinged? ==> ConsumedBefore(s.log, p, b);
    }
  }

  /** In every reachable state, a worker that sleeps un-notified while the flag is up has a
      notification coming: some thread has let go of the lock and is about to notify. */
  lemma NoLostWakeup(steps: seq<Step>, s: State, i: nat)
    requires Reaches(INITIAL, steps, s) && AsleepUnnotified(s, i) && Flag(s)
    ensures s.controller == NotifyingStop || exists t :: AboutToNotify(s, t)
  {
    InvReachable(steps, s);
  }

  /** Mutual exclusion between workers over any number of enable and disable cycles: at most one is
      live, and once `disable` has returned none is. */
  lemma AtMostOneWorker(steps: seq<Step>, s: State)
    requires Reaches(INITIAL, steps, s)
    ensures forall i, j | 0 <= i < j < |s.workers| :: s.workers[i] == Finished || s.workers[j] == Finished
    ensures s.controller == Free && !s.futureValid ==> forall i | 0 <= i < |s.workers| :: s.workers[i] == Finished
  {
    InvReachable(steps, s);
  }

  /** Once `disable` has raised stop_ under the lock, the worker it addresses never stops the main
      loop: a worker that had committed to its timeout did so before. */
  lemma DisabledNeverStops(steps: seq<Step>, s: State, p: nat, k: nat)
    requires Reaches(INITIAL, steps, s) && p < k < |s.log| && s.log[p].StopSet?
    ensures s.log[k].StopCalled? ==> s.log[k].worker != s.log[p].worker
  {
    InvReachable(steps, s);
  }

  /** Once an object is excluded, no ping for it is accepted: its requests keep nothing alive. */
  lemma ExcludedNeverPings(steps: seq<Step>, s: State, p: nat, k: nat)
    requires Reaches(INITIAL, steps, s) && p < k < |s.log| && s.log[p].Excluded?
    ensures s.log[k].Pinged? ==> s.log[k].path != s.log[p].path
  {
    InvReachable(steps, s);
  }

  /** Iterations that continue are paid for by accepted pings: one each over the whole life of the
      detector, and from any point on at most one more than the pings accepted since. */
  lemma ContinuesArePaid(steps: seq<Step>, s: State, from: nat)
    requires Reaches(INITIAL, steps, s) && from <= |s.log|
    ensures Continues(s.log) <= Accepted(s.log)
    ensures Continues(s.log[from..]) <= Accepted(s.log[from..]) + 1
  {
    InvReachable(steps, s);
    assert CountedFrom(s, from);
  }

  /** Every iteration that continues consumes a ping accepted since the previous consumption. */
  lemma ContinueConsumesPing(steps: seq<Step>, s: State, k: nat) returns (p: nat)
    requires Reaches(INITIAL, steps, s) && k < |s.log| && s.log[k].Continued?
    ensures p < k && s.log[p].Pinged? && forall c | p < c < k :: !Consumption(s.log[c])
  {
    InvReachable(steps, s);
    assert Fed(s.log, k);
    p :| 0 <= p < k < |s.log| && s.log[p].Pinged? && forall c | p < c < k :: !Consumption(s.log[c]);
  }

  /** A ping that has the lock comes before any final check still to be made: no worker is between
      its final check and the stop, and an accepted ping leaves the flag up for that check. */
  lemma PingPrecedesFinalCheck(steps: seq<Step>, s: State, t: Thread, i: nat)
    requires Reaches(INITIAL, steps, s) && CanStep(s, PingSet(t)) && s.pings[t].path !in s.excluded
    requires i < |s.workers|
    ensures !s.workers[i].Deciding? && !s.workers[i].Stopping?
    ensures Next(s, PingSet(t)).requestPing && exists p :: p == |s.log| && Fresh(Next(s, PingSet(t)).log, p)
  {
    InvReachable(steps, s);
    FreshAppend(s.log, Pinged(t, s.pings[t].path), |s.log|);
  }

  // ---------------------------------------------------------------- nobody gets stuck

  lemma OneStep(s: State, step: Step, t: State, steps: seq<Step>, u: State)
    requires CanStep(s, step) && t == Next(s, step) && Reaches(t, steps, u)
    ensures Reaches(s, [step] + steps, u)
  {
    assert ([step] + steps)[1..] == steps;
  }

  /** How far the live worker still is from leaving once stop_ is up. */
  function Distance(w: Worker): nat {
    match w
    case Finished => 0
    case Consuming => 1
    case Checking(_) => 2
    case Deciding(_) => 2
    case Entering => 3
    case Starting => 4
    case Waking(_, _) => 4
    case Sleeping(_, _) => 5
    case Stopping(_) => 1
  }

  /** The step the worker takes next, when the lock is its own or free. */
  function Advance(i: nat, w: Worker): Step {
    match w
    case Starting => Lock(i)
    case Entering => CallWaitFor(i)
    case Checking(_) => Check(i)
    case Sleeping(_, _) => Wake(i, false)
    case Waking(_, _) => Relock(i)
    case Deciding(_) => Decide(i)
    case Stopping(_) => CallStop(i)
    case Consuming => Consume(i)
    case Finished => Tick(0)
  }

  /** What happens next while `disable` waits for the last worker: a ping in its critical section
      lets go of the lock, else the worker advances. */
  function Drain(s: State): Step
    requires |s.workers| > 0
  {
    var i := |s.workers| - 1;
    if s.mutex.ByPing? then PingSet(s.mutex.t)
    else if s.workers[i] == Finished then Join
    else Advance(i, s.workers[i])
  }

  lemma DrainEnabled(s: State)
    requires LockInv(s) && LiveInv(s) && s.controller == Joining
    ensures |s.workers| > 0 && CanStep(s, Drain(s))
  {
    var i := |s.workers| - 1;
    if s.mutex.ByWorker? {
      assert HasLock(s.workers[s.mutex.i]);
      assert s.mutex.i == i;
    }
  }

  lemma DrainAdvances(s: State)
    requires WorkerInv(s) && s.controller == Joining && s.stop
    requires |s.workers| > 0 && CanStep(s, Drain(s)) && !Drain(s).Join?
    ensures var t := Next(s, Drain(s));
      && t.controller == Joining && |t.workers| == |s.workers|
      && if s.mutex.ByPing? then t.mutex == Nobody else
         !t.mutex.ByPing? && Distance(t.workers[|t.workers| - 1]) < Distance(s.workers[|s.workers| - 1])
  {
    var i := |s.workers| - 1;
    assert !s.workers[i].Stopping?;
  }

  /** `disable` cannot deadlock: from every state in which it waits for its worker there is a way
      for it to return, whatever the pinging threads were doing. */
  lemma {:induction false} DisableCanReturn(s: State) returns (steps: seq<Step>, s': State)
    requires Inv(s) && s.controller == Joining
    ensures Reaches(s, steps, s') && s'.controller == Free && !s'.futureValid
    decreases if s.mutex.ByPing? then 1 else 0, Distance(s.workers[|s.workers| - 1])
  {
    DrainEnabled(s);
    var step := Drain(s);
    var t := Next(s, step);
    if step.Join? {
      assert Reaches(t, [], t);
      OneStep(s, step, t, [], t);
      steps, s' := [step] + [], t;
    } else {
      InvStep(s, step);
      DrainAdvances(s);
      var rest;
      rest, s' := DisableCanReturn(t);
      OneStep(s, step, t, rest, s');
      steps := [step] + rest;
    }
  }

  lemma TwoSteps(s: State, a: Step, b: Step)
    requires CanStep(s, a) && CanStep(Next(s, a), b)
    ensures Reaches(s, [a, b], Next(Next(s, a), b))
  {
    var t := Next(s, a);
    assert Reaches(Next(t, b), [], Next(t, b));
    OneStep(t, b, Next(t, b), [], Next(t, b));
    OneStep(s, a, t, [b] + [], Next(t, b));
    assert [a] + ([b] + []) == [a, b];
  }

  lemma {:induction false} ReachesOn(s: State, steps: seq<Step>, t: State, steps': seq<Step>, u: State)
    requires Reaches(s, steps, t) && Reaches(t, steps', u)
    ensures Reaches(s, steps + steps', u)
    decreases |steps|
  {
    if steps == [] {
      assert steps + steps' == steps';
    } else {
      ReachesOn(Next(s, steps[0]), steps[1..], t, steps', u);
      assert (steps + steps')[1..] == steps[1..] + steps';
    }
  }

  /** A worker whose timeout is up and that has the lock stops the loop when the flag is down. */
  lemma TimedOutWorkerStops(s: State, i: nat) returns (s': State)
    requires i < |s.workers| && s.workers[i].Waking? && s.workers[i].timedOut && !Flag(s) && s.mutex == Nobody
    ensures Reaches(s, [Relock(i), Decide(i)] + [CallStop(i), Tick(0)], s')
    ensures s'.log == s.log + [StopCalled(i, s.now)]
  {
    var t := Next(Next(s, Relock(i)), Decide(i));
    TwoSteps(s, Relock(i), Decide(i));
    TwoSteps(t, CallStop(i), Tick(0));
    s' := Next(Next(t, CallStop(i)), Tick(0));
    ReachesOn(s, [Relock(i), Decide(i)], t, [CallStop(i), Tick(0)], s');
  }

  /** An idle worker can always go on to stop the loop, as early as its deadline: the detector is
      not safe by never stopping. */
  lemma IdleWorkerCanStop(s: State, i: nat) returns (steps: seq<Step>, s': State)
    requires Inv(s) && i < |s.workers| && s.workers[i].Sleeping? && !Flag(s) && s.mutex == Nobody
    ensures Reaches(s, steps, s')
    ensures var due := s.workers[i].deadline;
      s'.log == s.log + [StopCalled(i, if due <= s.now then s.now else due)]
  {
    var d := s.workers[i].deadline;
    var wait := if d <= s.now then 0 else d - s.now;
    var t := Next(Next(s, Tick(wait)), Wake(i, true));
    TwoSteps(s, Tick(wait), Wake(i, true));
    s' := TimedOutWorkerStops(t, i);
    steps := [Tick(wait), Wake(i, true)] + ([Relock(i), Decide(i)] + [CallStop(i), Tick(0)]);
    ReachesOn(s, [Tick(wait), Wake(i, true)], t, [Relock(i), Decide(i)] + [CallStop(i), Tick(0)], s');
  }

  // ---------------------------------------------------------------- what the calls achieve

  lemma OneStepReaches(s: State, step: Step)
    requires CanStep(s, step)
    ensures Reaches(s, [step], Next(s, step))
  {
    assert Reaches(Next(s, step), [], Next(s, step));
    OneStep(s, step, Next(s, step), [], Next(s, step));
    assert [step] + [] == [step];
  }

  /** A run one step longer. */
  lemma AndThen(s: State, steps: seq<Step>, t: State, step: Step)
    requires Reaches(s, steps, t) && CanStep(t, step)
    ensures Reaches(s, steps + [step], Next(t, step))
  {
    OneStepReaches(t, step);
    ReachesOn(s, steps, t, [step], Next(t, step));
  }

  lemma PingTakesLock(s: State, t: Thread, path: Path) returns (u: State)
    requires s.futureValid && s.mutex == Nobody && t !in s.pings
    ensures Reaches(s, [PingCall(t, path), PingLock(t)], u)
    ensures u == s.(pings := s.pings[t := Holding(path)], mutex := ByPing(t))
  {
    TwoSteps(s, PingCall(t, path), PingLock(t));
    u := Next(Next(s, PingCall(t, path)), PingLock(t));
  }

  /** A ping gets in: while the detector runs, a call for an object that is not excluded raises the flag
      and leaves nobody asleep un-notified. */
  lemma PingGetsThrough(s: State, t: Thread, path: Path) returns (s': State)
    requires s.futureValid && s.mutex == Nobody && t !in s.pings && path !in s.excluded
    ensures Reaches(s, [PingCall(t, path), PingLock(t)] + [PingSet(t), PingNotify(t)], s')
    ensures s'.log == s.log + [Pinged(t, path)] && s'.requestPing && s'.mutex == Nobody && s'.pings == s.pings
    ensures s'.workers == NotifyAll(s.workers) && forall i :: !AsleepUnnotified(s', i)
  {
    var u := PingTakesLock(s, t, path);
    TwoSteps(u, PingSet(t), PingNotify(t));
    s' := Next(Next(u, PingSet(t)), PingNotify(t));
    ReachesOn(s, [PingCall(t, path), PingLock(t)], u, [PingSet(t), PingNotify(t)], s');
  }

  /** A ping for an excluded object takes the lock and lets go of it, and changes nothing else. */
  lemma ExcludedPingIsDropped(s: State, t: Thread, path: Path)
    requires s.futureValid && s.mutex == Nobody && t !in s.pings && path in s.excluded
    ensures Reaches(s, [PingCall(t, path), PingLock(t)] + [PingSet(t)], s)
  {
    var u := PingTakesLock(s, t, path);
    AndThen(s, [PingCall(t, path), PingLock(t)], u, PingSet(t));
    assert u.pings - {t} == s.pings;
    assert Next(u, PingSet(t)) == s;
  }

  /** `exclude` works: it can always go on once the lock is free, and from then on a ping for the object
      is dropped. */
  lemma ExcludeWorks(s: State, t: Thread, path: Path) returns (s': State)
    requires s.futureValid && s.mutex == Nobody && t !in s.pings
    ensures CanStep(s, Exclude(path)) && s' == Next(s, Exclude(path)) && s'.log == s.log + [Excluded(path)]
    ensures Reaches(s', [PingCall(t, path), PingLock(t)] + [PingSet(t)], s')
  {
    s' := Next(s, Exclude(path));
    ExcludedPingIsDropped(s', t, path);
  }

  /** Calls that find the detector in the state they would bring about do nothing: a ping or `disable`
      with no worker, `enable` with one. */
  lemma IdleCalls(s: State, t: Thread, path: Path, timeout: Time)
    requires CanStep(s, PingCall(t, path)) && s.controller == Free
    ensures !s.futureValid ==> Next(s, PingCall(t, path)) == s && Next(s, DisableCall) == s
    ensures s.futureValid ==> Next(s, EnableCall(timeout)) == s
  {
  }

  /** The worker that wakes up to a raised flag, notified or timed out, goes on. */
  lemma PingedWorkerContinues(s: State, i: nat, timedOut: bool) returns (s': State)
    requires i < |s.workers| && s.workers[i].Sleeping? && s.requestPing && !s.stop && s.mutex == Nobody
    requires timedOut ==> s.workers[i].deadline <= s.now
    ensures Reaches(s, [Wake(i, timedOut), Relock(i)] + [if timedOut then Decide(i) else Check(i), Consume(i)], s')
    ensures s'.log == s.log + [Continued(i)] && !s'.requestPing && s'.mutex == Nobody
    ensures s'.workers == s.workers[i := Starting]
  {
    var check := if timedOut then Decide(i) else Check(i);
    var u := Next(Next(s, Wake(i, timedOut)), Relock(i));
    TwoSteps(s, Wake(i, timedOut), Relock(i));
    TwoSteps(u, check, Consume(i));
    s' := Next(Next(u, check), Consume(i));
    ReachesOn(s, [Wake(i, timedOut), Relock(i)], u, [check, Consume(i)], s');
  }

  /** As long as nobody consumes the ping, no run stops the loop. */
  lemma {:induction false} PingHoldsOff(s: State, steps: seq<Step>, u: State)
    requires Inv(s) && s.requestPing && Reaches(s, steps, u)
    requires forall k | 0 <= k < |steps| :: !steps[k].Consume?
    ensures u.requestPing && s.log <= u.log
    ensures forall k | |s.log| <= k < |u.log| :: !u.log[k].StopCalled?
    decreases |steps|
  {
    if steps != [] {
      var t := Next(s, steps[0]);
      InvStep(s, steps[0]);
      FlagStaysUp(s, steps[0]);
      PingHoldsOff(t, steps[1..], u);
      assert t.log == s.log + Emitted(s, steps[0]);
      forall k | |s.log| <= k < |u.log| ensures !u.log[k].StopCalled? {
        if k < |t.log| { assert u.log[k] == t.log[k]; }
      }
    }
  }

  lemma FlagStaysUp(s: State, step: Step)
    requires WorkerInv(s) && s.requestPing && CanStep(s, step) && !step.Consume?
    ensures Next(s, step).requestPing && s.log <= Next(s, step).log
    ensures forall k | 0 <= k < |Emitted(s, step)| :: !Emitted(s, step)[k].StopCalled?
  {
  }

  /** The controller's half of `enable`. */
  lemma EnableSpawns(s: State, timeout: Time) returns (s': State)
    requires s.controller == Free && !s.futureValid
    ensures Reaches(s, [EnableCall(timeout), ClearStop] + [Spawn, Assign], s')
    ensures s' == s.(stop := false, futureValid := true, workers := s.workers + [Starting],
                     timeouts := s.timeouts + [timeout], log := s.log + [Enabled(|s.workers|, s.now, timeout)])
  {
    var u := Next(Next(s, EnableCall(timeout)), ClearStop);
    TwoSteps(s, EnableCall(timeout), ClearStop);
    TwoSteps(u, Spawn, Assign);
    s' := Next(Next(u, Spawn), Assign);
    ReachesOn(s, [EnableCall(timeout), ClearStop], u, [Spawn, Assign], s');
  }

  lemma StartingWorkerChecks(s: State, i: nat) returns (u: State)
    requires i < |s.workers| == |s.timeouts| && s.workers[i] == Starting && s.mutex == Nobody
    ensures Reaches(s, [Lock(i), CallWaitFor(i)], u)
    ensures u == s.(workers := s.workers[i := Checking(s.now + s.timeouts[i])], mutex := ByWorker(i),
                    log := s.log + [Began(i, s.now)])
  {
    TwoSteps(s, Lock(i), CallWaitFor(i));
    u := Next(Next(s, Lock(i)), CallWaitFor(i));
    assert s.workers[i := Entering][i := u.workers[i]] == u.workers;
  }

  /** A worker about to take the lock with the flag down waits for its timeout. */
  lemma StartingWorkerWaits(s: State, i: nat) returns (s': State)
    requires i < |s.workers| == |s.timeouts| && s.workers[i] == Starting && s.mutex == Nobody && !Flag(s)
    ensures Reaches(s, [Lock(i), CallWaitFor(i)] + [Check(i)], s')
    ensures s' == s.(workers := s.workers[i := Sleeping(s.now + s.timeouts[i], false)],
                     log := s.log + [Began(i, s.now)])
  {
    var u := StartingWorkerChecks(s, i);
    AndThen(s, [Lock(i), CallWaitFor(i)], u, Check(i));
    s' := Next(u, Check(i));
    assert u.workers[i := s'.workers[i]] == s.workers[i := s'.workers[i]];
  }

  /** One that finds a flag left over from before consumes it and starts over. */
  lemma StartingWorkerConsumes(s: State, i: nat) returns (s': State)
    requires i < |s.workers| == |s.timeouts| && s.workers[i] == Starting && s.mutex == Nobody
    requires s.requestPing && !s.stop
    ensures Reaches(s, [Lock(i), CallWaitFor(i)] + [Check(i), Consume(i)], s')
    ensures s' == s.(requestPing := false, log := s.log + [Began(i, s.now), Continued(i)])
  {
    var u := StartingWorkerChecks(s, i);
    TwoSteps(u, Check(i), Consume(i));
    s' := Next(Next(u, Check(i)), Consume(i));
    ReachesOn(s, [Lock(i), CallWaitFor(i)], u, [Check(i), Consume(i)], s');
    assert s'.workers == s.workers;
  }

  /** `enable` works: from every state without a worker, at first or after any number of cycles, there
      is a worker that waits for the timeout from now on. */
  lemma EnableWorks(s: State, timeout: Time) returns (steps: seq<Step>, s': State)
    requires |s.timeouts| == |s.workers| && s.controller == Free && !s.futureValid && s.mutex == Nobody
    ensures Reaches(s, steps, s')
    ensures s'.futureValid && !Flag(s') && s'.mutex == Nobody && s'.controller == Free && s'.now == s.now
    ensures s'.workers == s.workers + [Sleeping(s.now + timeout, false)]
    ensures s'.log == s.log + [Enabled(|s.workers|, s.now, timeout)]
      + (if s.requestPing then [Began(|s.workers|, s.now), Continued(|s.workers|)] else [])
      + [Began(|s.workers|, s.now)]
  {
    var i := |s.workers|;
    var u := EnableSpawns(s, timeout);
    steps := [EnableCall(timeout), ClearStop] + [Spawn, Assign];
    if s.requestPing {
      var v := StartingWorkerConsumes(u, i);
      ReachesOn(s, steps, u, [Lock(i), CallWaitFor(i)] + [Check(i), Consume(i)], v);
      steps := steps + ([Lock(i), CallWaitFor(i)] + [Check(i), Consume(i)]);
      u := v;
    }
    s' := StartingWorkerWaits(u, i);
    ReachesOn(s, steps, u, [Lock(i), CallWaitFor(i)] + [Check(i)], s');
    steps := steps + ([Lock(i), CallWaitFor(i)] + [Check(i)]);
  }

  lemma DisableTakesLock(s: State) returns (u: State)
    requires s.controller == Free && s.futureValid && s.mutex == Nobody
    ensures Reaches(s, [DisableCall, DisableLock], u) && u == s.(controller := HoldingLock, mutex := ByController)
  {
    TwoSteps(s, DisableCall, DisableLock);
    u := Next(Next(s, DisableCall), DisableLock);
  }

  /** The controller's half of `disable`, up to the wait for the worker. */
  lemma DisableAsks(s: State) returns (s': State)
    requires s.controller == Free && s.futureValid && s.mutex == Nobody && |s.workers| > 0
    ensures Reaches(s, [DisableCall, DisableLock] + [SetStop, NotifyStop], s')
    ensures s'.controller == Joining && s'.stop && s'.log == s.log + [StopSet(|s.workers| - 1)]
  {
    var u := DisableTakesLock(s);
    TwoSteps(u, SetStop, NotifyStop);
    s' := Next(Next(u, SetStop), NotifyStop);
    ReachesOn(s, [DisableCall, DisableLock], u, [SetStop, NotifyStop], s');
  }

  /** `disable` works: from every state with a worker and a free lock it can run to its end. */
  lemma DisableWorks(s: State) returns (steps: seq<Step>, s': State)
    requires Inv(s) && s.controller == Free && s.futureValid && s.mutex == Nobody
    ensures Reaches(s, [DisableCall, DisableLock] + [SetStop, NotifyStop] + steps, s')
    ensures s'.controller == Free && !s'.futureValid && Inv(s')
  {
    var first := [DisableCall, DisableLock] + [SetStop, NotifyStop];
    var v := DisableAsks(s);
    InvRun(s, first, v);
    steps, s' := DisableCanReturn(v);
    InvRun(v, steps, s');
    ReachesOn(s, first, v, steps, s');
  }
}
