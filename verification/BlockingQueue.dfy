/**
 The ring buffer of blocking_queue.h: the critical sections of push and pop, with the source's
 32-bit unsigned arithmetic.
 */
module RingArithmetic {
  import opened Machine

  /** `(start + capacity - end) % (capacity + 1) == 0`, every operation in uint32_t. */
  predicate IsFull32(start: UInt32, end: UInt32, capacity: UInt32)
    requires capacity + 1 < 0x1_0000_0000
  {
    ToUInt32(ToUInt32(start + capacity) - end) % ToUInt32(capacity + 1) == 0
  }

  /** `index++; index %= capacity + 1`, in uint32_t. */
  function Advance32(index: UInt32, capacity: UInt32): UInt32
    requires capacity + 1 < 0x1_0000_0000
  {
    ToUInt32(index + 1) % ToUInt32(capacity + 1)
  }

  /** The number of elements between the two indices of a ring of capacity + 1 slots. */
  function Occupied(start: nat, end: nat, capacity: nat): int {
    if start <= end then end - start else end + capacity + 1 - start
  }

  /** Within the range the 32-bit conversion changes nothing. */
  lemma NoWrap(x: nat)
    requires x < 0x1_0000_0000
    ensures ToUInt32(x) == x
  {
  }

  /** Wrapping once in between makes no difference. */
  lemma WrapTwice(a: nat, b: nat)
    requires b <= a < 0x2_0000_0000
    ensures ToUInt32(ToUInt32(a) - b) == if a - b < 0x1_0000_0000 then a - b else a - b - 0x1_0000_0000
  {
  }

  /**
   What the full test computes, for every capacity: besides the full ring, where it always holds, it holds
   in the states with start + capacity - end == 2^32, where the unsigned difference wraps to zero.
   */
  lemma FullTestMeans(start: UInt32, end: UInt32, capacity: UInt32)
    requires capacity + 1 < 0x1_0000_0000 && start <= capacity && end <= capacity
    ensures IsFull32(start, end, capacity) <==>
      Occupied(start, end, capacity) == capacity || start + capacity == end + 0x1_0000_0000
  {
    var gap := start + capacity - end;
    var gap32 := if gap < 0x1_0000_0000 then gap else gap - 0x1_0000_0000;
    assert IsFull32(start, end, capacity) <==> gap32 % (capacity + 1) == 0 by {
      WrapTwice(start + capacity, end);
      NoWrap(capacity + 1);
    }
    DividedBy(gap32, capacity + 1);
  }

  lemma DividedBy(x: nat, m: nat)
    requires x < 2 * m
    ensures x % m == 0 <==> x == 0 || x == m
  {
    Remainder(x, m);
  }

  /** The indices of a ring. */
  datatype Ring = Ring(start: UInt32, end: UInt32)

  datatype RingOp = PushOne | PopOne

  const EMPTY_RING := Ring(0, 0)

  /** The capacities for which capacity + 1 does not wrap to zero. */
  type Capacity = n: UInt32 | n + 1 < 0x1_0000_0000

  predicate InRange(r: Ring, capacity: UInt32) {
    r.start <= capacity && r.end <= capacity
  }

  /** The index that a push or pop advances. */
  function RingMoved(r: Ring, op: RingOp, capacity: UInt32): Ring
    requires capacity + 1 < 0x1_0000_0000
  {
    if op.PushOne? then r.(end := Advance32(r.end, capacity)) else r.(start := Advance32(r.start, capacity))
  }

  /** The indices after one push or pop; None while it has to wait. */
  function RingStep(r: Ring, op: RingOp, capacity: UInt32): Option<Ring>
    requires capacity + 1 < 0x1_0000_0000
  {
    match op
    case PushOne => if IsFull32(r.start, r.end, capacity) then None else Some(RingMoved(r, op, capacity))
    case PopOne => if r.end == r.start then None else Some(RingMoved(r, op, capacity))
  }

  function RingRun(r: Ring, ops: seq<RingOp>, capacity: UInt32): Option<Ring>
    requires capacity + 1 < 0x1_0000_0000
    decreases |ops|
  {
    if ops == [] then Some(r)
    else
      match RingStep(r, ops[0], capacity)
      case None => None
      case Some(next) => RingRun(next, ops[1..], capacity)
  }

  predicate TestTells(r: Ring, capacity: UInt32)
    requires capacity + 1 < 0x1_0000_0000
  {
    IsFull32(r.start, r.end, capacity) <==> Occupied(r.start, r.end, capacity) == capacity
  }

  /**
   The full test is right in every state that pushes and pops of a new queue lead to exactly for
   capacities below 2^31. (A capacity of 2^32 - 1 is excluded: capacity + 1 wraps to zero and the division
   is undefined.)
   */
  lemma FullTestExact(capacity: UInt32)
    requires capacity + 1 < 0x1_0000_0000
    ensures (forall ops | RingRun(EMPTY_RING, ops, capacity).Some? ::
               TestTells(RingRun(EMPTY_RING, ops, capacity).value, capacity))
       <==> capacity < 0x8000_0000
  {
    if capacity < 0x8000_0000 {
      forall ops | RingRun(EMPTY_RING, ops, capacity).Some?
        ensures TestTells(RingRun(EMPTY_RING, ops, capacity).value, capacity)
      {
        RunInRange(EMPTY_RING, ops, capacity);
        var r := RingRun(EMPTY_RING, ops, capacity).value;
        FullTestMeans(r.start, r.end, capacity);
      }
    } else {
      var end: UInt32 := 2 * capacity - 0x1_0000_0000;
      var ops := FillTo(end, capacity);
      FullTestMeans(capacity, end, capacity);
      assert !TestTells(RingRun(EMPTY_RING, ops, capacity).value, capacity);
    }
  }

  lemma {:induction false} RunInRange(r: Ring, ops: seq<RingOp>, capacity: UInt32)
    requires capacity + 1 < 0x1_0000_0000 && r.start <= capacity && r.end <= capacity
    ensures RingRun(r, ops, capacity).Some? ==>
      RingRun(r, ops, capacity).value.start <= capacity && RingRun(r, ops, capacity).value.end <= capacity
    decreases |ops|
  {
    if ops != [] && RingStep(r, ops[0], capacity).Some? {
      AdvanceWraps(r.start, capacity);
      AdvanceWraps(r.end, capacity);
      RunInRange(RingStep(r, ops[0], capacity).value, ops[1..], capacity);
    }
  }

  lemma {:induction false} OneMoreOp(r: Ring, ops: seq<RingOp>, op: RingOp, capacity: UInt32)
    requires capacity + 1 < 0x1_0000_0000 && RingRun(r, ops, capacity).Some?
    ensures RingRun(r, ops + [op], capacity) == RingStep(RingRun(r, ops, capacity).value, op, capacity)
    decreases |ops|
  {
    if ops == [] {
      assert ops + [op] == [op] && [op][1..] == [];
    } else {
      OneMoreOp(RingStep(r, ops[0], capacity).value, ops[1..], op, capacity);
      assert (ops + [op])[1..] == ops[1..] + [op];
    }
  }

  /** Pushing and popping in turn moves both indices of an empty ring up. */
  lemma {:induction false} ClimbTo(i: UInt32, capacity: UInt32) returns (ops: seq<RingOp>)
    requires 0 < capacity && capacity + 1 < 0x1_0000_0000 && i <= capacity
    ensures RingRun(EMPTY_RING, ops, capacity) == Some(Ring(i, i))
    decreases i
  {
    ops := [];
    if 0 < i {
      ops := ClimbTo(i - 1, capacity);
      FullTestMeans(i - 1, i - 1, capacity);
      AdvanceWraps(i - 1, capacity);
      OneMoreOp(EMPTY_RING, ops, PushOne, capacity);
      OneMoreOp(EMPTY_RING, ops + [PushOne], PopOne, capacity);
      ops := ops + [PushOne] + [PopOne];
    }
  }

  /** From there pushes alone lead to the state in which the test errs. */
  lemma {:induction false} FillTo(end: UInt32, capacity: UInt32) returns (ops: seq<RingOp>)
    requires 0x8000_0000 <= capacity && capacity + 1 < 0x1_0000_0000 && end <= 2 * capacity - 0x1_0000_0000
    ensures RingRun(EMPTY_RING, ops, capacity) == Some(Ring(capacity, end))
    decreases end
  {
    var last: UInt32 := if end == 0 then capacity else end - 1;
    if end == 0 {
      ops := ClimbTo(capacity, capacity);
    } else {
      ops := FillTo(end - 1, capacity);
    }
    FullTestMeans(capacity, last, capacity);
    AdvanceWraps(last, capacity);
    OneMoreOp(EMPTY_RING, ops, PushOne, capacity);
    ops := ops + [PushOne];
  }

  lemma Remainder(x: nat, m: nat)
    requires x < 2 * m
    ensures x % m == if x < m then x else x - m
  {
    if x >= m {
      RemainderOfSum(x - m, m);
    }
  }

  lemma RemainderOfSum(r: nat, m: nat)
    requires r < m
    ensures (r + m) % m == r
  {
    assert r + m == (r + m) / m * m + (r + m) % m;
  }

  lemma AdvanceWraps(index: UInt32, capacity: UInt32)
    requires capacity + 1 < 0x1_0000_0000 && index <= capacity
    ensures Advance32(index, capacity) == if index == capacity then 0 else index + 1
  {
    NoWrap(index + 1);
    NoWrap(capacity + 1);
    Remainder(index + 1, capacity + 1);
  }

  /** When a push and when a pop has to wait, in terms of the elements. */
  lemma WaitMeans(r: Ring, capacity: Capacity)
    requires InRange(r, capacity)
    ensures var n := Occupied(r.start, r.end, capacity);
      && 0 <= n <= capacity
      && (RingStep(r, PushOne, capacity).None? <==> n == capacity || r.start + capacity == r.end + 0x1_0000_0000)
      && (r.start + capacity == r.end + 0x1_0000_0000 ==> capacity >= 0x8000_0000 && n > 0)
      && (RingStep(r, PopOne, capacity).None? <==> n == 0)
  {
    FullTestMeans(r.start, r.end, capacity);
  }

  /** A push where there is room adds one element, a pop where there is one takes one. */
  lemma MoveMeans(r: Ring, op: RingOp, capacity: Capacity)
    requires InRange(r, capacity)
    requires if op.PushOne? then Occupied(r.start, r.end, capacity) < capacity else r.start != r.end
    ensures var r' := RingMoved(r, op, capacity);
      && InRange(r', capacity)
      && Occupied(r'.start, r'.end, capacity)
           == Occupied(r.start, r.end, capacity) + (if op.PushOne? then 1 else -1)
  {
    AdvanceWraps(r.start, capacity);
    AdvanceWraps(r.end, capacity);
  }
}

module BlockingQueue {
  import opened Machine
  import opened RingArithmetic

  /** The elements between two indices of a ring, from start on and around the end of the storage. */
  function RingContents<T>(slots: seq<T>, start: nat, end: nat): seq<T>
    requires start < |slots| && end < |slots|
  {
    if start <= end then slots[start..end] else slots[start..] + slots[..end]
  }

  lemma PushBack<T>(slots: seq<T>, start: nat, end: nat, capacity: nat, e: T)
    requires |slots| == capacity + 1 && start <= capacity && end <= capacity
    requires Occupied(start, end, capacity) < capacity
    ensures RingContents(slots[end := e], start, if end == capacity then 0 else end + 1)
         == RingContents(slots, start, end) + [e]
  {
  }

  lemma PopFront<T>(slots: seq<T>, start: nat, end: nat, capacity: nat)
    requires |slots| == capacity + 1 && start <= capacity && end <= capacity
    requires start != end
    ensures RingContents(slots, start, end)
         == [slots[start]] + RingContents(slots, if start == capacity then 0 else start + 1, end)
  {
  }

  /** The contents gain the written element when end advances. */
  lemma PushAdvances<T>(slots: seq<T>, start: UInt32, end: UInt32, capacity: UInt32, e: T)
    requires |slots| == capacity + 1 < 0x1_0000_0000 && start <= capacity && end <= capacity
    requires Occupied(start, end, capacity) < capacity
    ensures Advance32(end, capacity) <= capacity
    ensures RingContents(slots[end := e], start, Advance32(end, capacity)) == RingContents(slots, start, end) + [e]
  {
    AdvanceWraps(end, capacity);
    PushBack(slots, start, end, capacity, e);
  }

  /** The contents lose their oldest element when start advances. */
  lemma PopAdvances<T>(slots: seq<T>, start: UInt32, end: UInt32, capacity: UInt32)
    requires |slots| == capacity + 1 < 0x1_0000_0000 && start <= capacity && end <= capacity
    requires start != end
    ensures Advance32(start, capacity) <= capacity
    ensures RingContents(slots, start, end) == [slots[start]] + RingContents(slots, Advance32(start, capacity), end)
  {
    AdvanceWraps(start, capacity);
    PopFront(slots, start, end, capacity);
  }

  class BlockingQueue<T(0)> {
    var start: UInt32
    var end: UInt32
    const capacity: UInt32
    const vt: array<T>

    /** With capacity 2^32 - 1 there are no slots at all, and nothing can ever be queued. */
    ghost predicate Valid()
      reads this
    {
      && vt.Length == ToUInt32(capacity + 1)
      && (if HasSlots() then start <= capacity && end <= capacity else start == end == 0)
    }

    /** capacity + 1 does not wrap to zero. */
    predicate HasSlots() {
      capacity + 1 < 0x1_0000_0000
    }

    function Indices(): Ring
      reads this
    {
      Ring(start, end)
    }

    /** The queued elements, oldest first. */
    ghost function Contents(): (s: seq<T>)
      requires Valid()
      reads this, vt
      ensures |s| == Occupied(start, end, capacity) <= capacity
    {
      if HasSlots() then RingContents(vt[..], start, end) else []
    }

    constructor (capacity: UInt32)
      ensures Valid() && fresh(vt) && this.capacity == capacity && Contents() == []
    {
      start, end := 0, 0;
      this.capacity := capacity;
      vt := new T[ToUInt32(capacity + 1)];
    }

    method IsEmpty() returns (r: bool)
      requires Valid()
      ensures r <==> |Contents()| == 0
    {
      r := end == start;
    }

    /** Full rings are always recognised; below 2^31 only they are. */
    method IsFull() returns (r: bool)
      requires Valid() && HasSlots()
      ensures r <==> RingStep(Indices(), PushOne, capacity).None?
      ensures r <==> |Contents()| == capacity || start + capacity == end + 0x1_0000_0000
      ensures capacity < 0x8000_0000 ==> (r <==> |Contents()| == capacity)
    {
      FullTestMeans(start, end, capacity);
      r := IsFull32(start, end, capacity);
    }

    /** The body of push after its wait loop. No element is ever lost, whatever the capacity. */
    method PushUnlessFull(e: T) returns (full: bool)
      requires Valid() && HasSlots()
      modifies this`end, vt
      ensures Valid()
      ensures RingStep(old(Indices()), PushOne, capacity) == if full then None else Some(Indices())
      ensures full <==> |old(Contents())| == capacity || start + capacity == old(end) + 0x1_0000_0000
      ensures capacity < 0x8000_0000 ==> (full <==> |old(Contents())| == capacity)
      ensures Contents() == if full then old(Contents()) else old(Contents()) + [e]
    {
      full := IsFull();
      if full {
        return;
      }
      PushAdvances(vt[..], start, end, capacity, e);
      vt[end] := e;
      end := Advance32(end, capacity);
    }

    /** The body of pop after its wait loop: None while there is nothing to take. */
    method PopUnlessEmpty() returns (res: Option<T>)
      requires Valid()
      modifies this`start
      ensures Valid()
      ensures HasSlots() ==>
        RingStep(old(Indices()), PopOne, capacity) == if res.None? then None else Some(Indices())
      ensures res.None? <==> old(Contents()) == []
      ensures res.None? ==> Contents() == old(Contents())
      ensures res.Some? ==> old(Contents()) == [res.value] + Contents()
    {
      var empty := IsEmpty();
      if empty {
        return None;
      }
      res := Some(vt[start]);
      PopAdvances(vt[..], start, end, capacity);
      start := Advance32(start, capacity);
    }
  }
}

/**
 The wait/notify protocol of push and pop as a step relation: one mutex, two condition variables,
 notify_one, barging threads, and spurious wakeups. The wait conditions are the 32-bit tests of the ring,
 for every capacity for which they are defined. Between two steps of one thread any other thread may take steps.
 */
module QueueProtocol {
  import opened Machine
  import opened RingArithmetic

  datatype Op<T> = Push(e: T) | Pop

  /**
   Where a thread is inside its call. Asleep is in the wait set; Notified has been taken out of it by
   notify_one but has not yet got the mutex back. Testing, Acting and Notifying hold the mutex.
   */
  datatype Pc<T> =
    | Idle
    | Entering(op: Op<T>)
    | Testing(op: Op<T>)
    | Asleep(op: Op<T>)
    | Notified(op: Op<T>)
    | Acting(op: Op<T>)
    | Notifying(op: Op<T>)
    | Leaving(op: Op<T>)

  datatype State<T> = State(
    capacity: Capacity,
    ring: Ring,
    queue: seq<T>,        // the elements between the indices of the ring, oldest first
    threads: map<nat, Pc<T>>,
    owner: Option<nat>,
    pushed: seq<T>,       // history: elements in the order in which they were written
    popped: seq<T>        // history: elements in the order in which they were read
  )

  datatype Step<T> =
    | Call(t: nat, op: Op<T>)
    | Acquire(t: nat)                        // first lock, or relock after a wait
    | Test(t: nat)                           // the while condition: go on, or sleep and release
    | Act(t: nat)                            // move one element
    | Notify(t: nat, woken: Option<nat>)     // notify_one on the other condition variable
    | Release(t: nat)
    | Spurious(t: nat)                       // a sleeper wakes without a notification

  predicate HoldsMutex<T>(pc: Pc<T>) {
    pc.Testing? || pc.Acting? || pc.Notifying? || pc.Leaving?
  }

  function RingOpOf<T>(op: Op<T>): RingOp {
    if op.Push? then PushOne else PopOne
  }

  /** The wait conditions isFull and isEmpty, on the 32-bit indices. */
  predicate Blocked<T>(s: State<T>, op: Op<T>) {
    RingStep(s.ring, RingOpOf(op), s.capacity).None?
  }

  predicate SleepsFor<T>(pc: Pc<T>, pop: bool) {
    pc.Asleep? && pc.op.Pop? == pop
  }

  function Sleepers<T>(threads: map<nat, Pc<T>>, pop: bool): set<nat> {
    set t | t in threads && SleepsFor(threads[t], pop)
  }

  function NotifiedThreads<T>(threads: map<nat, Pc<T>>, pop: bool): set<nat> {
    set t | t in threads && IsNotified(threads[t], pop)
  }

  predicate Enabled<T>(s: State<T>, step: Step<T>) {
    && step.t in s.threads
    && var pc := s.threads[step.t];
      match step
      case Call(_, _) => pc.Idle?
      case Acquire(_) => (pc.Entering? || pc.Notified?) && s.owner == None
      case Test(_) => pc.Testing?
      case Act(_) => pc.Acting? && (pc.op.Pop? ==> |s.queue| > 0)
      case Notify(_, woken) =>
        && pc.Notifying?
        && (if woken.Some? then woken.value in Sleepers(s.threads, pc.op.Push?)
            else Sleepers(s.threads, pc.op.Push?) == {})
      case Release(_) => pc.Leaving?
      case Spurious(_) => pc.Asleep?
  }

  function Apply<T>(s: State<T>, step: Step<T>): State<T>
    requires Enabled(s, step)
  {
    var t, pc := step.t, s.threads[step.t];
    match step
    case Call(_, op) => s.(threads := s.threads[t := Entering(op)])
    case Acquire(_) => s.(threads := s.threads[t := Testing(pc.op)], owner := Some(t))
    case Test(_) =>
      if Blocked(s, pc.op) then s.(threads := s.threads[t := Asleep(pc.op)], owner := None)
      else s.(threads := s.threads[t := Acting(pc.op)])
    case Act(_) =>
      var ring := RingMoved(s.ring, RingOpOf(pc.op), s.capacity);
      var moved := s.(threads := s.threads[t := Notifying(pc.op)], ring := ring);
      if pc.op.Push? then moved.(queue := s.queue + [pc.op.e], pushed := s.pushed + [pc.op.e])
      else moved.(queue := s.queue[1..], popped := s.popped + [s.queue[0]])
    case Notify(_, woken) =>
      var left := s.threads[t := Leaving(pc.op)];
      s.(threads := if woken.Some? then left[woken.value := Notified(s.threads[woken.value].op)] else left)
    case Release(_) => s.(threads := s.threads[t := Idle], owner := None)
    case Spurious(_) => s.(threads := s.threads[t := Entering(pc.op)])
  }

  /** 1 while the mutex owner is a thread of the given kind that has yet to take (or leave) an element. */
  function AboutToMove<T>(s: State<T>, pop: bool): nat {
    if s.owner.Some? && s.owner.value in s.threads
       && (var pc := s.threads[s.owner.value]; (pc.Testing? || pc.Acting?) && pc.op.Pop? == pop) then 1 else 0
  }

  /** 1 while the mutex owner has moved an element and has yet to notify the given kind. */
  function AboutToNotify<T>(s: State<T>, pop: bool): nat {
    if s.owner.Some? && s.owner.value in s.threads
       && (var pc := s.threads[s.owner.value]; pc.Notifying? && pc.op.Push? == pop) then 1 else 0
  }

  predicate Mutex<T>(s: State<T>) {
    forall t :: t in s.threads ==> (HoldsMutex(s.threads[t]) <==> s.owner == Some(t))
  }

  /** What the tests established still holds when the owner acts. */
  predicate ActingAllowed<T>(s: State<T>) {
    forall t :: t in s.threads && s.threads[t].Acting? ==>
      if s.threads[t].op.Push? then |s.queue| < s.capacity else |s.queue| > 0
  }

  ghost predicate Fifo<T>(s: State<T>) {
    |s.queue| <= s.capacity && s.pushed == s.popped + s.queue
  }

  /** What threads of the given kind wait for: queued elements, or free slots. */
  function Available<T>(s: State<T>, pop: bool): int {
    if pop then |s.queue| else s.capacity - |s.queue|
  }

  /** The indices are those of a ring that holds the queue. */
  predicate RingTied<T>(s: State<T>) {
    InRange(s.ring, s.capacity) && |s.queue| == Occupied(s.ring.start, s.ring.end, s.capacity)
  }

  /** Threads of the given kind that are on their way, and the one that is about to be notified. */
  ghost function Coming<T>(s: State<T>, pop: bool): nat {
    |NotifiedThreads(s.threads, pop)| + AboutToMove(s, pop) + AboutToNotify(s, pop)
  }

  /** A sleeper is covered: all that is available is promised to threads of its kind that are on their way. */
  ghost predicate Covered<T>(s: State<T>, pop: bool) {
    Sleepers(s.threads, pop) != {} ==>
      Available(s, pop) <= Coming(s, pop)
  }

  /** While a producer sleeps there is an element whose pop will wake one, or a producer on its way. */
  ghost predicate Alive<T>(s: State<T>) {
    Sleepers(s.threads, false) != {} ==> s.capacity == 0 || |s.queue| + Coming(s, false) > 0
  }

  /** What holds of sleepers: consumers are covered, producers for capacities for which the full test is right. */
  ghost predicate Served<T>(s: State<T>, pop: bool) {
    && (pop || s.capacity < 0x8000_0000 ==> Covered(s, pop))
    && (!pop ==> Alive(s))
  }

  predicate OwnerExists<T>(s: State<T>) {
    s.owner.Some? ==> s.owner.value in s.threads
  }

  ghost predicate Inv<T>(s: State<T>) {
    && OwnerExists(s)
    && Mutex(s)
    && ActingAllowed(s)
    && Fifo(s)
    && RingTied(s)
    && Served(s, true)
    && Served(s, false)
  }

  /** An empty queue and any number of idle threads. */
  ghost predicate Init<T>(s: State<T>) {
    && s.ring == EMPTY_RING && s.queue == [] && s.pushed == [] && s.popped == [] && s.owner == None
    && forall t :: t in s.threads ==> s.threads[t].Idle?
  }

  predicate IsNotified<T>(pc: Pc<T>, pop: bool) {
    pc.Notified? && pc.op.Pop? == pop
  }

  lemma SleepersAfter<T>(threads: map<nat, Pc<T>>, t: nat, pc: Pc<T>, pop: bool)
    requires t in threads
    ensures Sleepers(threads[t := pc], pop) == Sleepers(threads, pop) - {t} + (if SleepsFor(pc, pop) then {t} else {})
  {
  }

  lemma NotifiedAfter<T>(threads: map<nat, Pc<T>>, t: nat, pc: Pc<T>, pop: bool)
    requires t in threads
    ensures NotifiedThreads(threads[t := pc], pop)
         == if IsNotified(pc, pop) then NotifiedThreads(threads, pop) + {t} else NotifiedThreads(threads, pop) - {t}
  {
  }

  /** The sleepers and the number of notified threads after one thread moves. */
  lemma OneThreadMoves<T>(threads: map<nat, Pc<T>>, t: nat, pc: Pc<T>, pop: bool)
    requires t in threads
    ensures Sleepers(threads[t := pc], pop) == Sleepers(threads, pop) - {t} + (if SleepsFor(pc, pop) then {t} else {})
    ensures |NotifiedThreads(threads[t := pc], pop)|
         == |NotifiedThreads(threads, pop)| - (if IsNotified(threads[t], pop) then 1 else 0)
            + (if IsNotified(pc, pop) then 1 else 0)
  {
    SleepersAfter(threads, t, pc, pop);
    NotifiedAfter(threads, t, pc, pop);
    Resized(NotifiedThreads(threads, pop), t);
  }

  lemma Resized(a: set<nat>, t: nat)
    ensures |a - {t}| == |a| - (if t in a then 1 else 0)
    ensures |a + {t}| == |a| + (if t in a then 0 else 1)
  {
    if t in a {
      assert a == (a - {t}) + {t};
      assert a + {t} == a;
    } else {
      assert a - {t} == a;
    }
  }

  /** What the owner and the other threads need for their steps, without the quantified invariants. */
  ghost predicate OwnerMoves<T>(s: State<T>, t: nat, pop: bool) {
    t in s.threads && s.owner == Some(t) && Served(s, pop) && RingTied(s)
  }

  lemma CoveredByNotify<T>(s: State<T>, step: Step<T>, pop: bool)
    requires OwnerMoves(s, step.t, pop) && Enabled(s, step) && step.Notify?
    ensures Served(Apply(s, step), pop)
  {
    var s', left := Apply(s, step), s.threads[step.t := Leaving(s.threads[step.t].op)];
    OneThreadMoves(s.threads, step.t, left[step.t], pop);
    if step.woken.Some? {
      var w := step.woken.value;
      assert SleepsFor(s.threads[w], s.threads[step.t].op.Push?) && w != step.t;
      OneThreadMoves(left, w, s'.threads[w], pop);
    }
  }

  lemma CoveredByTest<T>(s: State<T>, step: Step<T>, pop: bool)
    requires OwnerMoves(s, step.t, pop) && Enabled(s, step) && step.Test?
    ensures Served(Apply(s, step), pop)
  {
    WaitMeans(s.ring, s.capacity);
    OneThreadMoves(s.threads, step.t, Apply(s, step).threads[step.t], pop);
  }

  lemma CoveredByAct<T>(s: State<T>, step: Step<T>, pop: bool)
    requires OwnerMoves(s, step.t, pop) && Enabled(s, step) && step.Act?
    ensures Served(Apply(s, step), pop)
  {
    OneThreadMoves(s.threads, step.t, Apply(s, step).threads[step.t], pop);
  }

  lemma CoveredByRelease<T>(s: State<T>, step: Step<T>, pop: bool)
    requires OwnerMoves(s, step.t, pop) && Enabled(s, step) && step.Release?
    ensures Served(Apply(s, step), pop)
  {
    OneThreadMoves(s.threads, step.t, Apply(s, step).threads[step.t], pop);
  }

  lemma CoveredByAcquire<T>(s: State<T>, step: Step<T>, pop: bool)
    requires Served(s, pop) && Enabled(s, step) && step.Acquire?
    ensures Served(Apply(s, step), pop)
  {
    OneThreadMoves(s.threads, step.t, Apply(s, step).threads[step.t], pop);
  }

  /** The owner of the mutex does not notice what another thread does. */
  lemma OwnerUnmoved<T>(s: State<T>, t: nat, pc: Pc<T>, pop: bool)
    requires t in s.threads && s.owner != Some(t)
    ensures var s' := s.(threads := s.threads[t := pc]);
      AboutToMove(s', pop) == AboutToMove(s, pop) && AboutToNotify(s', pop) == AboutToNotify(s, pop)
  {
  }

  lemma CoveredByCall<T>(s: State<T>, step: Step<T>, pop: bool)
    requires Served(s, pop) && Enabled(s, step) && step.Call? && s.owner != Some(step.t)
    ensures Served(Apply(s, step), pop)
  {
    OwnerUnmoved(s, step.t, Entering(step.op), pop);
    OneThreadMoves(s.threads, step.t, Entering(step.op), pop);
  }

  lemma CoveredBySpurious<T>(s: State<T>, step: Step<T>, pop: bool)
    requires Served(s, pop) && Enabled(s, step) && step.Spurious? && s.owner != Some(step.t)
    ensures Served(Apply(s, step), pop)
  {
    var op := s.threads[step.t].op;
    OwnerUnmoved(s, step.t, Entering(op), pop);
    OneThreadMoves(s.threads, step.t, Entering(op), pop);
  }

  lemma CoveredPreserved<T>(s: State<T>, step: Step<T>, pop: bool)
    requires Inv(s) && Enabled(s, step)
    ensures Served(Apply(s, step), pop)
  {
    match step
    case Notify(_, _) => CoveredByNotify(s, step, pop);
    case Test(_) => CoveredByTest(s, step, pop);
    case Act(_) => CoveredByAct(s, step, pop);
    case Release(_) => CoveredByRelease(s, step, pop);
    case Acquire(_) => CoveredByAcquire(s, step, pop);
    case Call(_, _) => CoveredByCall(s, step, pop);
    case Spurious(_) => CoveredBySpurious(s, step, pop);
  }

  lemma LockPreserved<T>(s: State<T>, step: Step<T>)
    requires Inv(s) && Enabled(s, step)
    ensures OwnerExists(Apply(s, step)) && Mutex(Apply(s, step))
  {
  }

  /** A move keeps the elements between the indices, in order; no other step touches them. */
  lemma QueuePreserved<T>(s: State<T>, step: Step<T>)
    requires Fifo(s) && RingTied(s) && ActingAllowed(s) && Enabled(s, step)
    ensures Fifo(Apply(s, step)) && RingTied(Apply(s, step))
  {
    if step.Act? {
      var op := s.threads[step.t].op;
      MoveMeans(s.ring, RingOpOf(op), s.capacity);
      if op.Pop? {
        assert [s.queue[0]] + s.queue[1..] == s.queue;
        Regroup(s.popped, [s.queue[0]], s.queue[1..]);
      } else {
        Regroup(s.popped, s.queue, [op.e]);
      }
    }
  }

  /** What a test established holds until its thread acts, because the thread keeps the mutex. */
  lemma ActingPreserved<T>(s: State<T>, step: Step<T>)
    requires Mutex(s) && RingTied(s) && ActingAllowed(s) && Enabled(s, step)
    ensures ActingAllowed(Apply(s, step))
  {
    if step.Test? {
      WaitMeans(s.ring, s.capacity);
    }
  }

  /** Every step of every thread keeps the invariant. */
  lemma InvPreserved<T>(s: State<T>, step: Step<T>)
    requires Inv(s) && Enabled(s, step)
    ensures Inv(Apply(s, step))
  {
    LockPreserved(s, step);
    QueuePreserved(s, step);
    ActingPreserved(s, step);
    CoveredPreserved(s, step, true);
    CoveredPreserved(s, step, false);
  }

  /** A run: each step is enabled in the state the previous ones lead to. */
  ghost predicate IsRun<T>(s: State<T>, steps: seq<Step<T>>)
    decreases |steps|
  {
    steps == [] || (Enabled(s, steps[0]) && IsRun(Apply(s, steps[0]), steps[1..]))
  }

  ghost function After<T>(s: State<T>, steps: seq<Step<T>>): State<T>
    requires IsRun(s, steps)
    decreases |steps|
  {
    if steps == [] then s else After(Apply(s, steps[0]), steps[1..])
  }

  lemma {:induction false} InvOverRun<T>(s: State<T>, steps: seq<Step<T>>)
    requires Inv(s) && IsRun(s, steps)
    ensures Inv(After(s, steps)) && After(s, steps).capacity == s.capacity
    decreases |steps|
  {
    if steps != [] {
      InvPreserved(s, steps[0]);
      InvOverRun(Apply(s, steps[0]), steps[1..]);
    }
  }

  /**
   First in, first out, over every interleaving and for every capacity: what was popped, followed by what is
   queued, is what was pushed; the capacity is never exceeded; whenever the mutex is free, a consumer that sleeps
   un-notified leaves no more elements than there are notified consumers yet to resume, and a producer that
   sleeps un-notified, for capacities below 2^31, no more free slots than notified producers yet to resume; for
   any capacity but 0 there is then an element left or a notified producer.
   */
  lemma NoLostWakeup<T>(s0: State<T>, steps: seq<Step<T>>)
    requires Init(s0) && IsRun(s0, steps)
    ensures var s := After(s0, steps);
      && s.pushed == s.popped + s.queue
      && |s.queue| <= s0.capacity
      && (s.owner.None? && Sleepers(s.threads, true) != {} ==> |s.queue| <= |NotifiedThreads(s.threads, true)|)
      && (s0.capacity < 0x8000_0000 ==> ProducersCovered(s))
      && (s.owner.None? && Sleepers(s.threads, false) != {} && s0.capacity > 0 ==>
            s.queue != [] || NotifiedThreads(s.threads, false) != {})
  {
    InitHasInv(s0);
    InvOverRun(s0, steps);
  }

  ghost predicate ProducersCovered<T>(s: State<T>) {
    s.owner.None? && Sleepers(s.threads, false) != {} ==>
      s.capacity - |s.queue| <= |NotifiedThreads(s.threads, false)|
  }

  lemma InitHasInv<T>(s: State<T>)
    requires Init(s)
    ensures Inv(s)
  {
    assert Sleepers(s.threads, true) == {} && Sleepers(s.threads, false) == {};
  }

  // What the calls themselves say: no state is looked at here.

  /** The calls that have not moved their element yet, by thread; a thread that acts uses its call up. */
  function OpenCalls<T>(calls: map<nat, Op<T>>, step: Step<T>): map<nat, Op<T>> {
    if step.Call? then calls[step.t := step.op] else if step.Act? then calls - {step.t} else calls
  }

  /** The arguments of the push calls that act, in the order in which they act. */
  function PushArguments<T>(calls: map<nat, Op<T>>, steps: seq<Step<T>>): seq<T>
    decreases |steps|
  {
    if steps == [] then []
    else
      (if steps[0].Act? && steps[0].t in calls && calls[steps[0].t].Push? then [calls[steps[0].t].e] else [])
      + PushArguments(OpenCalls(calls, steps[0]), steps[1..])
  }

  /** How many pop calls act. */
  function PopActs<T>(calls: map<nat, Op<T>>, steps: seq<Step<T>>): nat
    decreases |steps|
  {
    if steps == [] then 0
    else
      (if steps[0].Act? && steps[0].t in calls && calls[steps[0].t].Pop? then 1 else 0)
      + PopActs(OpenCalls(calls, steps[0]), steps[1..])
  }

  predicate BeforeAct<T>(pc: Pc<T>) {
    !pc.Idle? && !pc.Notifying? && !pc.Leaving?
  }

  /** The open calls are those of the threads that have not acted yet, which carry the operation they called with. */
  ghost predicate Called<T>(s: State<T>, calls: map<nat, Op<T>>) {
    && (forall t :: t in s.threads && BeforeAct(s.threads[t]) ==> t in calls && calls[t] == s.threads[t].op)
    && (forall t :: t in calls ==> t in s.threads && BeforeAct(s.threads[t]))
  }

  /** The open calls after a run, again from the steps alone. */
  function OpenAfter<T>(calls: map<nat, Op<T>>, steps: seq<Step<T>>): map<nat, Op<T>>
    decreases |steps|
  {
    if steps == [] then calls else OpenAfter(OpenCalls(calls, steps[0]), steps[1..])
  }

  lemma CalledPreserved<T>(s: State<T>, calls: map<nat, Op<T>>, step: Step<T>)
    requires Called(s, calls) && Enabled(s, step)
    ensures Called(Apply(s, step), OpenCalls(calls, step))
  {
  }

  /** The threads that a notification has woken and that have not got the mutex since. */
  function Woken<T>(woken: set<nat>, step: Step<T>): set<nat> {
    match step
    case Notify(_, Some(w)) => woken + {w}
    case Acquire(t) => woken - {t}
    case _ => woken
  }

  function WokenAfter<T>(woken: set<nat>, steps: seq<Step<T>>): set<nat>
    decreases |steps|
  {
    if steps == [] then woken else WokenAfter(Woken(woken, steps[0]), steps[1..])
  }

  ghost predicate NotifiedAre<T>(s: State<T>, woken: set<nat>) {
    forall t :: t in woken <==> t in s.threads && s.threads[t].Notified?
  }

  lemma WokenPreserved<T>(s: State<T>, woken: set<nat>, step: Step<T>)
    requires NotifiedAre(s, woken) && Enabled(s, step)
    ensures NotifiedAre(Apply(s, step), Woken(woken, step))
  {
  }

  /** The notified threads of a state are those that the notifications of the run have woken. */
  lemma {:induction false} NotifiedByRun<T>(s: State<T>, woken: set<nat>, steps: seq<Step<T>>)
    requires NotifiedAre(s, woken) && IsRun(s, steps)
    ensures NotifiedAre(After(s, steps), WokenAfter(woken, steps))
    decreases |steps|
  {
    if steps != [] {
      WokenPreserved(s, woken, steps[0]);
      NotifiedByRun(Apply(s, steps[0]), Woken(woken, steps[0]), steps[1..]);
    }
  }

  lemma {:induction false} HistoryOfCalls<T>(s: State<T>, calls: map<nat, Op<T>>, steps: seq<Step<T>>)
    requires Called(s, calls) && IsRun(s, steps)
    ensures After(s, steps).pushed == s.pushed + PushArguments(calls, steps)
    ensures |After(s, steps).popped| == |s.popped| + PopActs(calls, steps)
    ensures Called(After(s, steps), OpenAfter(calls, steps))
    decreases |steps|
  {
    if steps != [] {
      var s1, calls1 := Apply(s, steps[0]), OpenCalls(calls, steps[0]);
      CalledPreserved(s, calls, steps[0]);
      HistoryOfCalls(s1, calls1, steps[1..]);
      var one := if steps[0].Act? && calls[steps[0].t].Push? then [calls[steps[0].t].e] else [];
      assert s1.pushed == s.pushed + one;
      Regroup(s.pushed, one, PushArguments(calls1, steps[1..]));
    }
  }

  /**
   Over every run, what has been popped is the arguments of the push calls, in the order in which they acted,
   as many as pop calls have acted, and what is queued is the rest of them. Each call acts once, and a thread that
   is idle again has acted. The threads that count as notified are those that notifications have woken.
   */
  lemma QueueServesCalls<T>(s0: State<T>, steps: seq<Step<T>>)
    requires Init(s0) && IsRun(s0, steps)
    ensures var s, arguments, n := After(s0, steps), PushArguments(map[], steps), PopActs(map[], steps);
      && n <= |arguments| && s.popped == arguments[..n] && s.queue == arguments[n..]
      && (forall t :: t in s.threads && s.threads[t].Idle? ==> t !in OpenAfter(map[], steps))
      && NotifiedAre(s, WokenAfter({}, steps))
  {
    InitHasInv(s0);
    NotifiedByRun(s0, {}, steps);
    InvOverRun(s0, steps);
    HistoryOfCalls(s0, map[], steps);
    var s := After(s0, steps);
    assert (s.popped + s.queue)[..|s.popped|] == s.popped && (s.popped + s.queue)[|s.popped|..] == s.queue;
  }

  /** No thread can take a step inside its call without some sleeper waking spuriously first. */
  predicate Quiescent<T>(s: State<T>) {
    forall t :: t in s.threads ==> s.threads[t].Idle? || s.threads[t].Asleep?
  }

  /**
   When everybody is idle or asleep, sleeping consumers imply an empty queue and sleeping producers a queue with
   an element, below 2^31 a full one. Hence both kinds sleep together, which would be a deadlock, only if the
   capacity is 0.
   */
  lemma QuiescentStates<T>(s0: State<T>, steps: seq<Step<T>>)
    requires Init(s0) && IsRun(s0, steps) && Quiescent(After(s0, steps))
    ensures var s := After(s0, steps);
      && (Sleepers(s.threads, true) != {} ==> s.queue == [])
      && (Sleepers(s.threads, false) != {} ==> s.queue != [] || s0.capacity == 0)
      && (Sleepers(s.threads, false) != {} && s0.capacity < 0x8000_0000 ==> |s.queue| == s0.capacity)
      && (Sleepers(s.threads, true) != {} && Sleepers(s.threads, false) != {} ==> s0.capacity == 0)
  {
    InitHasInv(s0);
    InvOverRun(s0, steps);
    var s := After(s0, steps);
    assert NotifiedThreads(s.threads, true) == {} && NotifiedThreads(s.threads, false) == {};
  }

  /** In every reachable state that is not quiescent some thread can go on, so the mutex is never stuck. */
  lemma SomeoneCanMove<T>(s0: State<T>, steps: seq<Step<T>>) returns (next: Step<T>)
    requires Init(s0) && IsRun(s0, steps) && !Quiescent(After(s0, steps))
    ensures Enabled(After(s0, steps), next) && !next.Spurious? && !next.Call?
  {
    InitHasInv(s0);
    InvOverRun(s0, steps);
    var s := After(s0, steps);
    var t :| t in s.threads && !s.threads[t].Idle? && !s.threads[t].Asleep?;
    var u: nat := if s.owner.Some? then s.owner.value else t;
    match s.threads[u]
    case Testing(_) => next := Test(u);
    case Acting(_) => next := Act(u);
    case Leaving(_) => next := Release(u);
    case Notifying(op) =>
      if Sleepers(s.threads, op.Push?) == {} {
        next := Notify(u, None);
      } else {
        var w :| w in Sleepers(s.threads, op.Push?);
        next := Notify(u, Some(w));
      }
    case _ => next := Acquire(u);
  }

  // For capacities from 2^31 on a producer can sleep beside free slots.

  lemma RunCons<T>(s: State<T>, step: Step<T>, rest: seq<Step<T>>)
    requires Enabled(s, step) && IsRun(Apply(s, step), rest)
    ensures IsRun(s, [step] + rest) && After(s, [step] + rest) == After(Apply(s, step), rest)
  {
    assert ([step] + rest)[0] == step && ([step] + rest)[1..] == rest;
  }

  lemma {:induction false} RunConcat<T>(s: State<T>, a: seq<Step<T>>, b: seq<Step<T>>)
    requires IsRun(s, a) && IsRun(After(s, a), b)
    ensures IsRun(s, a + b) && After(s, a + b) == After(After(s, a), b)
    decreases |a|
  {
    if a == [] {
      assert a + b == b;
    } else {
      RunConcat(Apply(s, a[0]), a[1..], b);
      RunCons(s, a[0], a[1..] + b);
      assert a + b == [a[0]] + (a[1..] + b);
    }
  }

  /** One thread, which is idle, and the mutex is free. */
  ghost predicate Resting<T>(s: State<T>) {
    s.threads == map[0 := Idle] && s.owner == None && Inv(s)
  }

  /** The thread calls, gets the mutex and tests. */
  lemma FirstHalf<T>(s: State<T>, op: Op<T>) returns (steps: seq<Step<T>>)
    requires Resting(s)
    ensures IsRun(s, steps)
    ensures After(s, steps) == if Blocked(s, op) then s.(threads := map[0 := Asleep(op)])
                               else s.(threads := map[0 := Acting(op)], owner := Some(0))
  {
    var s1 := Apply(s, Call(0, op));
    var s2 := Apply(s1, Acquire(0));
    var s3 := Apply(s2, Test(0));
    assert s1.threads == map[0 := Entering(op)] && s2.threads == map[0 := Testing(op)];
    RunCons(s2, Test(0), []);
    RunCons(s1, Acquire(0), [Test(0)]);
    RunCons(s, Call(0, op), [Acquire(0)] + [Test(0)]);
    assert s3.threads == if Blocked(s, op) then map[0 := Asleep(op)] else map[0 := Acting(op)];
    assert [Step<T>.Test(0)] + [] == [Step<T>.Test(0)];
    steps := [Call(0, op)] + ([Acquire(0)] + [Test(0)]);
  }

  /** It moves an element, finds nobody to notify, and leaves. */
  lemma SecondHalf<T>(s: State<T>, op: Op<T>) returns (steps: seq<Step<T>>)
    requires s.threads == map[0 := Acting(op)] && s.owner == Some(0) && (op.Pop? ==> |s.queue| > 0)
    ensures IsRun(s, steps)
    ensures var r := After(s, steps);
      && r.threads == map[0 := Idle] && r.owner == None && r.capacity == s.capacity
      && r.ring == RingMoved(s.ring, RingOpOf(op), s.capacity)
  {
    var s1 := Apply(s, Act(0));
    assert s1.threads == map[0 := Notifying(op)];
    assert Sleepers(s1.threads, op.Push?) == {};
    var s2 := Apply(s1, Notify(0, None));
    assert s2.threads == map[0 := Leaving(op)];
    var s3 := Apply(s2, Release(0));
    assert s3.threads == map[0 := Idle];
    RunCons(s2, Release(0), []);
    RunCons(s1, Notify(0, None), [Release(0)]);
    RunCons(s, Act(0), [Notify(0, None)] + [Release(0)]);
    assert [Step<T>.Release(0)] + [] == [Step<T>.Release(0)];
    steps := [Act(0)] + ([Notify(0, None)] + [Release(0)]);
  }

  /** One thread can carry out every run of the ring. */
  lemma {:induction false} OneThreadRuns<T>(s: State<T>, ops: seq<RingOp>, e: T) returns (steps: seq<Step<T>>)
    requires Resting(s) && RingRun(s.ring, ops, s.capacity).Some?
    ensures IsRun(s, steps) && Resting(After(s, steps)) && After(s, steps).capacity == s.capacity
    ensures After(s, steps).ring == RingRun(s.ring, ops, s.capacity).value
    decreases |ops|
  {
    steps := [];
    if ops != [] {
      var op := if ops[0].PushOne? then Push(e) else Pop;
      var half := FirstHalf(s, op);
      InvOverRun(s, half);
      var rest := SecondHalf(After(s, half), op);
      RunConcat(s, half, rest);
      InvOverRun(s, half + rest);
      var more := OneThreadRuns(After(s, half + rest), ops[1..], e);
      RunConcat(s, half + rest, more);
      steps := half + rest + more;
    }
  }

  /** A run after which a producer sleeps, nobody is notified, and there are free slots. */
  lemma ProducerSleepsInVain<T>(capacity: Capacity, e: T) returns (s0: State<T>, steps: seq<Step<T>>)
    requires capacity >= 0x8000_0000
    ensures Init(s0) && s0.capacity == capacity && IsRun(s0, steps)
    ensures var s := After(s0, steps);
      s.owner.None? && s.threads == map[0 := Asleep(Push(e))] && |s.queue| < capacity
  {
    s0 := State(capacity, EMPTY_RING, [], map[0 := Idle], None, [], []);
    InitHasInv(s0);
    var end: UInt32 := 2 * capacity - 0x1_0000_0000;
    var ops := FillTo(end, capacity);
    var filled := OneThreadRuns(s0, ops, e);
    var s := After(s0, filled);
    WaitMeans(s.ring, capacity);
    var last := FirstHalf(s, Push(e));
    RunConcat(s0, filled, last);
    steps := filled + last;
  }

  /** A sleeping producer never leaves more free slots than notified producers exactly for capacities below 2^31. */
  lemma ProducersCoveredIff<T(!new)>(capacity: Capacity, e: T)
    ensures (forall s0: State<T>, steps: seq<Step<T>> | Init(s0) && s0.capacity == capacity && IsRun(s0, steps) ::
               ProducersCovered(After(s0, steps)))
       <==> capacity < 0x8000_0000
  {
    if capacity < 0x8000_0000 {
      forall s0: State<T>, steps: seq<Step<T>> | Init(s0) && s0.capacity == capacity && IsRun(s0, steps)
        ensures ProducersCovered(After(s0, steps))
      {
        NoLostWakeup(s0, steps);
      }
    } else {
      var s0, steps := ProducerSleepsInVain(capacity, e);
      var s := After(s0, steps);
      InitHasInv(s0);
      InvOverRun(s0, steps);
      assert 0 in Sleepers(s.threads, false) && NotifiedThreads(s.threads, false) == {};
      assert !ProducersCovered(s);
    }
  }
}
