/**
 The start/stop protocol of timer.h as steps of one controlling thread, distinct from the workers, and of
 the periodic workers it spawns. Spurious wakeups of the condition variable are included.
 */
module TimerProtocol {
  /** Where a worker is. It is active until it has written stopStatus_. */
  datatype Worker =
    | Looping       // about to test tryStopFlag_
    | Running       // sleeping or inside taskFun
    | Locking       // the loop is over; wants mutex_
    | Setting       // holds mutex_; about to write stopStatus_ = true
    | Notifying     // holds mutex_; about to call notify_one
    | Unlocking     // holds mutex_; about to end

  datatype Controller =
    | Idle
    | StartCheck | StartSet | StartSpawn
    | StopCheck | StopCheckFlag | StopFlag | StopLock
    | StopTest      // holds mutex_; evaluates the wait predicate
    | StopAsleep    // in the wait set, not notified
    | StopWoken     // out of the wait set; wants mutex_
    | StopClear     // holds mutex_; the wait is over
    | StopUnlock

  datatype Owner = Free | ByController | ByWorker(id: nat)

  datatype State = State(
    stopStatus: bool,
    tryStop: bool,
    mutex: Owner,
    controller: Controller,
    workers: map<nat, Worker>,
    stopped: bool              // history: Stop has returned and Start has not been called since
  )

  datatype Step =
    | CallStart | CallStop
    | Control(spawned: nat)    // the next step of the controller; `spawned` names a new worker
    | Work(id: nat)            // the next step of a worker
    | Spurious                 // the controller wakes without a notification

  const INITIAL := State(true, false, Free, Idle, map[], false)

  predicate Enabled(s: State, step: Step) {
    match step
    case CallStart => s.controller == Idle
    case CallStop => s.controller == Idle
    case Spurious => s.controller == StopAsleep
    case Control(spawned) =>
      && s.controller != Idle && s.controller != StopAsleep
      && (s.controller == StopLock || s.controller == StopWoken ==> s.mutex == Free)
      && (s.controller == StartSpawn ==> spawned !in s.workers)
    case Work(id) => id in s.workers && (s.workers[id] == Locking ==> s.mutex == Free)
  }

  function ControlStep(s: State, spawned: nat): State {
    match s.controller
    case StartCheck => s.(controller := if s.stopStatus then StartSet else Idle)
    case StartSet => s.(stopStatus := false, controller := StartSpawn)
    case StartSpawn => s.(workers := s.workers[spawned := Looping], controller := Idle)
    case StopCheck => if s.stopStatus then s.(controller := Idle, stopped := true) else s.(controller := StopCheckFlag)
    case StopCheckFlag => if s.tryStop then s.(controller := Idle, stopped := true) else s.(controller := StopFlag)
    case StopFlag => s.(tryStop := true, controller := StopLock)
    case StopLock => s.(mutex := ByController, controller := StopTest)
    case StopTest => if s.stopStatus then s.(controller := StopClear) else s.(mutex := Free, controller := StopAsleep)
    case StopWoken => s.(mutex := ByController, controller := StopTest)
    case StopClear => s.(tryStop := if s.stopStatus then false else s.tryStop, controller := StopUnlock)
    case StopUnlock => s.(mutex := Free, controller := Idle, stopped := true)
    case _ => s
  }

  function WorkStep(s: State, id: nat): State
    requires id in s.workers
  {
    match s.workers[id]
    case Looping => s.(workers := s.workers[id := if s.tryStop then Locking else Running])
    case Running => s.(workers := s.workers[id := Looping])
    case Locking => s.(workers := s.workers[id := Setting], mutex := ByWorker(id))
    case Setting => s.(workers := s.workers[id := Notifying], stopStatus := true)
    case Notifying =>
      s.(workers := s.workers[id := Unlocking],
         controller := if s.controller == StopAsleep then StopWoken else s.controller)
    case Unlocking => s.(workers := s.workers - {id}, mutex := Free)
  }

  function Apply(s: State, step: Step): State
    requires Enabled(s, step)
  {
    match step
    case CallStart => s.(controller := StartCheck, stopped := false)
    case CallStop => s.(controller := StopCheck)
    case Spurious => s.(controller := StopWoken)
    case Control(spawned) => ControlStep(s, spawned)
    case Work(id) => WorkStep(s, id)
  }

  predicate Active(w: Worker) {
    w == Looping || w == Running || w == Locking || w == Setting
  }

  predicate WorkerHolds(w: Worker) {
    w == Setting || w == Notifying || w == Unlocking
  }

  predicate ControllerHolds(c: Controller) {
    c == StopTest || c == StopClear || c == StopUnlock
  }

  predicate Stopping(c: Controller) {
    c == StopLock || c == StopTest || c == StopAsleep || c == StopWoken || c == StopClear
  }

  predicate SomeActive(s: State) {
    exists i :: i in s.workers && Active(s.workers[i])
  }

  /** stopStatus_ is false exactly while a worker is active or about to be spawned, and there is at most one. */
  predicate OneActive(s: State) {
    && (forall i, j :: i in s.workers && j in s.workers && Active(s.workers[i]) && Active(s.workers[j]) ==> i == j)
    && (!s.stopStatus <==> SomeActive(s) || s.controller == StartSpawn)
    && (s.controller == StartSpawn ==> !SomeActive(s))
  }

  predicate Mutex(s: State) {
    && (s.mutex == ByController <==> ControllerHolds(s.controller))
    && (forall i :: i in s.workers ==> (WorkerHolds(s.workers[i]) <==> s.mutex == ByWorker(i)))
    && (s.mutex.ByWorker? ==> s.mutex.id in s.workers)
  }

  /** A Stop that sleeps although the timer has stopped has a notification on its way. */
  predicate NoLostNotification(s: State) {
    s.controller == StopAsleep && s.stopStatus ==>
      s.mutex.ByWorker? && s.mutex.id in s.workers && s.workers[s.mutex.id] == Notifying
  }

  /** The worker has left its loop for good. */
  predicate Leaving(w: Worker) {
    w != Looping && w != Running
  }

  /** A Stop that has found the timer running. */
  predicate PastCheck(c: Controller) {
    Stopping(c) || c == StopCheckFlag || c == StopFlag || c == StopUnlock
  }

  /** Workers leave their loop only for a Stop that still waits, and a Stop that has returned waits no more. */
  predicate Departures(s: State) {
    && (forall i :: i in s.workers && Leaving(s.workers[i]) ==> Stopping(s.controller) && s.controller != StopClear)
    && (PastCheck(s.controller) ==> !s.stopped)
  }

  /** There is never more than one worker, not even one on its way out beside a new one. */
  predicate Alone(s: State) {
    forall i, j :: i in s.workers && j in s.workers ==> i == j
  }

  predicate Flags(s: State) {
    && (s.tryStop <==> Stopping(s.controller))
    && (s.controller == StartSet || s.controller == StopClear || s.controller == StopUnlock ==> s.stopStatus)
    && (s.stopped ==> s.stopStatus)
    && (s.controller == StartCheck || s.controller == StartSet || s.controller == StartSpawn ==> !s.stopped)
  }

  predicate Inv(s: State) {
    OneActive(s) && Mutex(s) && NoLostNotification(s) && Flags(s) && Departures(s) && Alone(s)
  }

  /** After a step of a worker: active workers stay active until they write stopStatus_. */
  lemma WorkKeepsOneActive(s: State, id: nat)
    requires Inv(s) && id in s.workers && Enabled(s, Work(id))
    ensures OneActive(WorkStep(s, id))
  {
    var s' := WorkStep(s, id);
    if Active(s.workers[id]) && s.workers[id] != Setting {
      assert Active(s'.workers[id]);
    }
  }

  lemma ControlKeepsOneActive(s: State, spawned: nat)
    requires Inv(s) && Enabled(s, Control(spawned))
    ensures OneActive(ControlStep(s, spawned))
  {
    var s' := ControlStep(s, spawned);
    if s.controller == StartSpawn {
      assert Active(s'.workers[spawned]);
    }
  }

  /** Every step keeps the invariant. */
  lemma InvPreserved(s: State, step: Step)
    requires Inv(s) && Enabled(s, step)
    ensures Inv(Apply(s, step))
  {
    match step
    case Work(id) =>
      WorkKeepsOneActive(s, id);
      WorkKeepsRest(s, id);
      WorkKeepsDepartures(s, id);
    case Control(spawned) =>
      ControlKeepsOneActive(s, spawned);
      ControlKeepsRest(s, spawned);
      ControlKeepsDepartures(s, spawned);
      ControlKeepsAlone(s, spawned);
    case _ => CallKeeps(s, step);
  }

  lemma WorkKeepsRest(s: State, id: nat)
    requires Inv(s) && id in s.workers && Enabled(s, Work(id))
    ensures Mutex(WorkStep(s, id)) && NoLostNotification(WorkStep(s, id)) && Flags(WorkStep(s, id))
  {
  }

  lemma ControlKeepsRest(s: State, spawned: nat)
    requires Inv(s) && Enabled(s, Control(spawned))
    ensures Mutex(ControlStep(s, spawned)) && NoLostNotification(ControlStep(s, spawned))
    ensures Flags(ControlStep(s, spawned))
  {
  }

  lemma WorkKeepsDepartures(s: State, id: nat)
    requires Inv(s) && id in s.workers && Enabled(s, Work(id))
    ensures Departures(WorkStep(s, id))
  {
  }

  lemma ControlKeepsDepartures(s: State, spawned: nat)
    requires Inv(s) && Enabled(s, Control(spawned))
    ensures Departures(ControlStep(s, spawned))
  {
    forall i | i in s.workers
      ensures !(s.controller == StopTest && s.stopStatus)
    {
      WorkerMeans(s, i);
    }
  }

  /** While there is a worker, Stop has not returned and does not find the timer stopped, and Start starts no other. */
  lemma WorkerMeans(s: State, i: nat)
    requires Inv(s) && i in s.workers
    ensures !s.stopped && !(s.controller == StopTest && s.stopStatus)
    ensures s.controller != StopClear && s.controller != StopUnlock && s.controller != StartSpawn
    ensures !Stopping(s.controller) ==> !s.stopStatus
  {
    assert Active(s.workers[i]) ==> SomeActive(s);
  }

  lemma ControlKeepsAlone(s: State, spawned: nat)
    requires Inv(s) && Enabled(s, Control(spawned))
    ensures Alone(ControlStep(s, spawned))
  {
    forall i | i in s.workers
      ensures s.controller != StartSpawn
    {
      WorkerMeans(s, i);
    }
  }

  lemma CallKeeps(s: State, step: Step)
    requires Inv(s) && Enabled(s, step) && !step.Work? && !step.Control?
    ensures Inv(Apply(s, step))
  {
  }

  predicate IsRun(s: State, steps: seq<Step>)
    decreases |steps|
  {
    steps == [] || (Enabled(s, steps[0]) && IsRun(Apply(s, steps[0]), steps[1..]))
  }

  function After(s: State, steps: seq<Step>): State
    requires IsRun(s, steps)
    decreases |steps|
  {
    if steps == [] then s else After(Apply(s, steps[0]), steps[1..])
  }

  lemma {:induction false} InvOverRun(s: State, steps: seq<Step>)
    requires Inv(s) && IsRun(s, steps)
    ensures Inv(After(s, steps))
    decreases |steps|
  {
    if steps != [] {
      InvPreserved(s, steps[0]);
      InvOverRun(Apply(s, steps[0]), steps[1..]);
    }
  }

  /**
   In every state of every run: at most one worker is active; stopStatus_ is false exactly while one is
   active or being spawned; a sleeping Stop is never left un-notified with stopStatus_ true and nobody
   about to notify it; and between a return of Stop and the next call of Start there is no worker left at
   all, so no periodic task runs and nobody touches the mutex or the condition variable of the timer.
   */
  lemma TimerSafety(steps: seq<Step>)
    requires IsRun(INITIAL, steps)
    ensures var s := After(INITIAL, steps);
      && OneActive(s)
      && NoLostNotification(s)
      && (s.stopped ==> s.workers == map[])
  {
    InvOverRun(INITIAL, steps);
    var s := After(INITIAL, steps);
    if i :| i in s.workers {
      WorkerMeans(s, i);
    }
  }

  predicate Starting(c: Controller) {
    c == StartCheck || c == StartSet || c == StartSpawn
  }

  /** While a timer that had stopped is being started there is no worker, and only the controller can take a step. */
  lemma OnlyStartMoves(s: State, step: Step)
    requires Inv(s) && Starting(s.controller) && Enabled(s, step) && (s.controller == StartCheck ==> s.stopStatus)
    ensures s.workers == map[] && step.Control?
  {
    if i :| i in s.workers {
      WorkerMeans(s, i);
    }
  }

  /** Start on a stopped timer takes three steps, in which nothing else moves, and leaves one worker in its loop. */
  lemma StartStarts(before: seq<Step>, first: nat, second: nat, id: nat)
    requires IsRun(INITIAL, before) && After(INITIAL, before).controller == Idle && After(INITIAL, before).stopStatus
    ensures var s := After(INITIAL, before); var s1 := Apply(s, CallStart);
      && Enabled(s1, Control(first)) && Enabled(Apply(s1, Control(first)), Control(second))
      && var s3 := Apply(Apply(s1, Control(first)), Control(second));
         Enabled(s3, Control(id))
         && var started := Apply(s3, Control(id));
            && started.controller == Idle && started.workers == map[id := Looping]
            && !started.stopStatus && !started.tryStop && !started.stopped
  {
    InvOverRun(INITIAL, before);
    var s := After(INITIAL, before);
    if i :| i in s.workers {
      WorkerMeans(s, i);
    }
  }

  /** Start on a running timer starts nothing. */
  lemma StartOnRunning(s: State, spawned: nat)
    requires s.controller == Idle && !s.stopStatus
    ensures Apply(Apply(s, CallStart), Control(spawned)) == s.(stopped := false)
  {
  }

  /**
   In every reachable state a worker in its loop goes on to its task, and comes back from it to its loop, unless
   Stop waits for it to end; then it leaves the loop for good.
   */
  lemma WorkerRunsTask(steps: seq<Step>, id: nat)
    requires IsRun(INITIAL, steps) && id in After(INITIAL, steps).workers
    ensures var s := After(INITIAL, steps);
      var next := if Stopping(s.controller) then Locking else Running;
      && (s.workers[id] == Looping ==> Apply(s, Work(id)) == s.(workers := map[id := next]))
      && (s.workers[id] == Running ==> Apply(s, Work(id)) == s.(workers := map[id := Looping]))
  {
    InvOverRun(INITIAL, steps);
    var s := After(INITIAL, steps);
    assert s.workers.Keys == {id};
  }

  /** Stop has asked the worker to end and has not returned yet. */
  predicate Waits(c: Controller) {
    Stopping(c) || c == StopUnlock
  }

  /** A Stop that waits is never stuck: some worker, or the controller itself, can take a step. */
  lemma StopIsNotStuck(steps: seq<Step>) returns (next: Step)
    requires IsRun(INITIAL, steps) && Waits(After(INITIAL, steps).controller)
    ensures Enabled(After(INITIAL, steps), next) && next != Spurious
  {
    InvOverRun(INITIAL, steps);
    var s := After(INITIAL, steps);
    match s.mutex
    case ByWorker(id) => next := Work(id);
    case ByController => next := Control(0);
    case Free =>
      if s.controller == StopAsleep {
        var i :| i in s.workers && Active(s.workers[i]);
        next := Work(i);
      } else {
        next := Control(0);
      }
  }

  /** How many steps a worker has left once it is asked to end. */
  function WorkerRank(w: Worker): nat {
    match w
    case Running => 6
    case Looping => 5
    case Locking => 4
    case Setting => 3
    case Notifying => 2
    case Unlocking => 1
  }

  function ControllerRank(c: Controller): nat {
    match c
    case StopLock | StopWoken => 5
    case StopTest => 4
    case StopAsleep => 3
    case StopClear => 2
    case StopUnlock => 1
    case _ => 0
  }

  ghost function WorkersRank(s: State): nat {
    if i :| i in s.workers then WorkerRank(s.workers[i]) else 0
  }

  /** Being notified costs the controller two more steps, for which a step of the worker has to stand. */
  ghost function Rank(s: State): nat {
    3 * WorkersRank(s) + ControllerRank(s.controller)
  }

  lemma WorkersRankIs(s: State)
    requires Alone(s)
    ensures forall i :: i in s.workers ==> WorkersRank(s) == WorkerRank(s.workers[i])
    ensures s.workers == map[] ==> WorkersRank(s) == 0
    ensures Rank(s) <= 23
  {
  }

  lemma WorkLowers(s: State, id: nat)
    requires Inv(s) && Waits(s.controller) && Enabled(s, Work(id))
    ensures Waits(WorkStep(s, id).controller) && Rank(WorkStep(s, id)) < Rank(s)
  {
    var s' := WorkStep(s, id);
    WorkersRankIs(s);
    WorkersRankIs(s');
    WorkerMeans(s, id);
    assert s.workers[id] == Unlocking ==> s'.workers == map[];
    assert s.workers[id] != Unlocking ==> id in s'.workers;
  }

  /** A step of the controller alone leaves the rank of the workers as it is. */
  lemma SameWorkers(s: State, s': State)
    requires Alone(s) && s'.workers == s.workers
    ensures WorkersRank(s') == WorkersRank(s)
  {
    WorkersRankIs(s);
    WorkersRankIs(s');
  }

  /** While Stop waits, each step but a spurious wakeup lowers the rank, and Stop ends only by returning. */
  lemma RankLowers(s: State, step: Step)
    requires Inv(s) && Waits(s.controller) && Enabled(s, step)
    ensures var s' := Apply(s, step);
      && (Waits(s'.controller) || (s'.controller == Idle && s'.stopped))
      && (step == Spurious ==> Rank(s') == Rank(s) + 2)
      && (step != Spurious && Waits(s'.controller) ==> Rank(s') < Rank(s))
  {
    if step.Work? {
      WorkLowers(s, step.id);
    } else {
      SameWorkers(s, Apply(s, step));
    }
  }

  /** Stop waits in every state of the run. */
  predicate KeepsWaiting(s: State, steps: seq<Step>)
    requires IsRun(s, steps)
    decreases |steps|
  {
    Waits(s.controller) && (steps != [] ==> KeepsWaiting(Apply(s, steps[0]), steps[1..]))
  }

  function SpuriousSteps(steps: seq<Step>): nat {
    if steps == [] then 0 else (if steps[0] == Spurious then 1 else 0) + SpuriousSteps(steps[1..])
  }

  lemma {:induction false} WaitIsBounded(s: State, steps: seq<Step>)
    requires Inv(s) && IsRun(s, steps) && KeepsWaiting(s, steps)
    ensures |steps| <= Rank(s) + 3 * SpuriousSteps(steps)
    decreases |steps|
  {
    if steps != [] {
      RankLowers(s, steps[0]);
      InvPreserved(s, steps[0]);
      WaitIsBounded(Apply(s, steps[0]), steps[1..]);
    }
  }

  /**
   Stop returns: from any state of any run in which it waits, it goes on waiting for at most 23 steps of the
   worker and of itself, and two more of them for each spurious wakeup.
   */
  lemma StopReturns(before: seq<Step>, steps: seq<Step>)
    requires IsRun(INITIAL, before) && IsRun(After(INITIAL, before), steps)
    requires KeepsWaiting(After(INITIAL, before), steps)
    ensures |steps| - SpuriousSteps(steps) <= 23 + 2 * SpuriousSteps(steps)
  {
    InvOverRun(INITIAL, before);
    WaitIsBounded(After(INITIAL, before), steps);
    WorkersRankIs(After(INITIAL, before));
  }
}
