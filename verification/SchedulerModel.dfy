// The cooperative scheduler as a state machine. One step is a pick by the run
// loop, one call made by the running guest thread, or the end of a slice. What
// the guest does inside a slice is an arbitrary choice of calls.

module SchedulerModel {
  import opened Common

  type Tid = nat

  datatype RunState = Runnable | Blocked | Finished
  datatype Block = NoBlock | Join | Mutex | Cond
  datatype Stop = StopNone | StopBlock | StopYield

  datatype Thread = Thread(tid: Tid, state: RunState, block: Block, obj: nat,
                           joinOut: nat, retval: nat)

  /** The scheduler's fields, plus the guest words it writes (`mem`) and whether
      the engine is executing a slice (`inSlice`). */
  datatype Sched = Sched(threads: map<Tid, Thread>, owner: map<nat, Tid>, cur: Tid, nextTid: Tid,
                         rr: nat, prefer: Tid, hybrid: bool, running: bool, stop: Stop,
                         mem: map<nat, nat>, inSlice: bool)

  /** What a running guest thread may do without leaving its slice by itself. */
  datatype Call =
    | Spawn(out: nat)
    | Clone(ptid: nat, ctid: nat)
    | DoJoin(tid: Tid, out: nat)
    | Yield
    | Lock(m: nat)
    | Unlock(m: nat)
    | CondWait(c: nat, m: nat)
    | CondWake(c: nat, all: bool)
    | Store(a: nat, v: nat)
    | SetHybrid(h: bool)

  /** How a slice in which no blocking call was made comes to an end. */
  datatype Outcome = Exit(v: nat) | Preempt

  datatype Step = Pick | Do(call: Call) | End(outcome: Outcome)

  // ----- pick_next -----

  predicate IsRunnable(threads: map<Tid, Thread>, t: Tid) {
    t in threads && threads[t].state == Runnable
  }

  /** The position of the round-robin cursor advanced by k. */
  function Turn(rr: nat, k: nat, n: nat): (r: nat)
    requires n > 0
    ensures r < n
  {
    (rr + k) % n
  }

  /** The first offset k at or after `from` whose thread ids[(rr + k) % n] is runnable. */
  function Scan(threads: map<Tid, Thread>, ids: seq<Tid>, rr: nat, from: nat): (r: Option<nat>)
    requires from <= |ids|
    decreases |ids| - from
  {
    if from == |ids| then None
    else if IsRunnable(threads, ids[Turn(rr, from, |ids|)]) then Some(from)
    else Scan(threads, ids, rr, from + 1)
  }

  function RoundRobin(s: Sched): (r: (Sched, Option<Tid>)) {
    var ids := Ascending(s.threads.Keys);
    match Scan(s.threads, ids, s.rr, 0)
    case None => (s, None)
    case Some(k) =>
      if |ids| == 0 then (s, None)
      else (s.(rr := Turn(s.rr, k + 1, |ids|)), Some(ids[Turn(s.rr, k, |ids|)]))
  }

  function PickNext(s: Sched): (r: (Sched, Option<Tid>)) {
    if s.prefer != 0 && IsRunnable(s.threads, s.prefer) then (s.(prefer := 0), Some(s.prefer))
    else RoundRobin(s.(prefer := 0))
  }

  // ----- waking -----

  predicate Waits(t: Thread, why: Block, obj: nat) {
    t.state == Blocked && t.block == why && t.obj == obj
  }

  function Woken(t: Thread): Thread {
    t.(block := NoBlock, state := Runnable)
  }

  function WakeAll(threads: map<Tid, Thread>, why: Block, obj: nat): (r: map<Tid, Thread>) {
    map t | t in threads :: if Waits(threads[t], why, obj) then Woken(threads[t]) else threads[t]
  }

  /** Addresses at which the joiners of `tid` want its return value. */
  function JoinOuts(threads: map<Tid, Thread>, tid: Tid): set<nat> {
    set t | t in threads && Waits(threads[t], Join, tid) && threads[t].joinOut != 0 :: threads[t].joinOut
  }

  function WakeJoiners(s: Sched, tid: Tid): (r: Sched)
    requires tid in s.threads
  {
    var rv := s.threads[tid].retval;
    s.(threads := WakeAll(s.threads, Join, tid),
       mem := s.mem + map a | a in JoinOuts(s.threads, tid) :: rv)
  }

  /** The first waiter in iteration order, that is, the one with the least id. */
  predicate IsFirstWaiter(threads: map<Tid, Thread>, why: Block, obj: nat, t: Tid) {
    t in threads && Waits(threads[t], why, obj) &&
    forall u :: u in threads && u < t ==> !Waits(threads[u], why, obj)
  }

  function FirstWaiterFrom(threads: map<Tid, Thread>, ids: seq<Tid>, why: Block, obj: nat): (r: Option<Tid>)
    requires forall t :: t in ids ==> t in threads
    ensures r.Some? ==> r.value in threads && Waits(threads[r.value], why, obj)
  {
    if ids == [] then None
    else if Waits(threads[ids[0]], why, obj) then Some(ids[0])
    else FirstWaiterFrom(threads, ids[1..], why, obj)
  }

  function FirstWaiter(threads: map<Tid, Thread>, why: Block, obj: nat): (r: Option<Tid>)
    ensures r.Some? ==> r.value in threads && Waits(threads[r.value], why, obj)
  {
    FirstWaiterFrom(threads, Ascending(threads.Keys), why, obj)
  }

  lemma {:induction false} FirstWaiterFromIsLeast(threads: map<Tid, Thread>, ids: seq<Tid>, why: Block, obj: nat)
    requires forall t :: t in ids ==> t in threads
    requires forall i, j :: 0 <= i < j < |ids| ==> ids[i] < ids[j]
    ensures match FirstWaiterFrom(threads, ids, why, obj)
            case None => forall t :: t in ids ==> !Waits(threads[t], why, obj)
            case Some(f) => f in ids && forall t :: t in ids && t < f ==> !Waits(threads[t], why, obj)
  {
    if ids != [] && !Waits(threads[ids[0]], why, obj) {
      FirstWaiterFromIsLeast(threads, ids[1..], why, obj);
    }
  }

  /** FirstWaiter is the hand-off target: the waiter of least id, if there is one. */
  lemma FirstWaiterIsLeast(threads: map<Tid, Thread>, why: Block, obj: nat)
    ensures match FirstWaiter(threads, why, obj)
            case None => forall t :: t in threads ==> !Waits(threads[t], why, obj)
            case Some(f) => IsFirstWaiter(threads, why, obj, f)
  {
    AscendingIncreases(threads.Keys);
    FirstWaiterFromIsLeast(threads, Ascending(threads.Keys), why, obj);
  }

  // ----- calls -----

  /** The part of the state that belongs to the run loop: no call touches it. */
  predicate SameLoop(s: Sched, r: Sched) {
    r.cur == s.cur && r.rr == s.rr && r.running == s.running && r.inSlice == s.inSlice
  }

  function Poke(mem: map<nat, nat>, a: nat, v: nat): map<nat, nat> {
    if a == 0 then mem else mem[a := v]
  }

  /** The part of pthread_create and clone that is common to both. */
  function AddThread(s: Sched, mem: map<nat, nat>): (r: Sched)
    requires s.cur in s.threads
    ensures SameLoop(s, r)
  {
    var t := Thread(s.nextTid, Runnable, NoBlock, 0, 0, 0);
    var s1 := s.(threads := s.threads[s.nextTid := t], nextTid := s.nextTid + 1, mem := mem);
    if !s.hybrid then s1
    else s1.(threads := s1.threads[s.cur := s1.threads[s.cur].(state := Runnable)],
             prefer := s.nextTid, stop := StopYield)
  }

  function BlockSelf(s: Sched, why: Block, obj: nat, joinOut: nat): (r: Sched)
    requires s.cur in s.threads
    ensures SameLoop(s, r)
  {
    var self := s.threads[s.cur];
    s.(threads := s.threads[s.cur := self.(state := Blocked, block := why, obj := obj, joinOut := joinOut)],
       stop := StopBlock)
  }

  function MutexUnlock(s: Sched, m: nat): (r: Sched)
    ensures SameLoop(s, r)
  {
    match FirstWaiter(s.threads, Mutex, m)
    case None => s.(owner := s.owner[m := 0])
    case Some(t) => s.(owner := s.owner[m := s.threads[t].tid],
                       threads := s.threads[t := Woken(s.threads[t])])
  }

  function MutexLock(s: Sched, m: nat): (r: Sched)
    requires s.cur in s.threads
    ensures SameLoop(s, r)
  {
    if m !in s.owner || s.owner[m] == 0 then s.(owner := s.owner[m := s.cur])
    else BlockSelf(s, Mutex, m, s.threads[s.cur].joinOut)
  }

  function JoinThread(s: Sched, tid: Tid, out: nat): (r: Sched)
    requires s.cur in s.threads
    ensures SameLoop(s, r)
  {
    if tid !in s.threads then s.(mem := Poke(s.mem, out, 0))
    else if s.threads[tid].state == Finished then s.(mem := Poke(s.mem, out, s.threads[tid].retval))
    else BlockSelf(s, Join, tid, out)
  }

  function WakeCond(s: Sched, c: nat, all: bool): (r: Sched)
    ensures SameLoop(s, r)
  {
    if all then s.(threads := WakeAll(s.threads, Cond, c))
    else match FirstWaiter(s.threads, Cond, c)
         case None => s
         case Some(t) => s.(threads := s.threads[t := Woken(s.threads[t])])
  }

  function Perform(s: Sched, c: Call): (r: Sched)
    requires s.cur in s.threads
    ensures SameLoop(s, r)
    ensures r.nextTid == s.nextTid + (if c.Spawn? || c.Clone? then 1 else 0)
    ensures r.prefer == s.prefer || c.Spawn? || c.Clone?
  {
    hide FirstWaiter, WakeAll;
    match c
    case Spawn(out) => AddThread(s, Poke(s.mem, out, s.nextTid))
    case Clone(ptid, ctid) =>
      AddThread(s, Poke(Poke(s.mem, ptid, s.nextTid % TWO32), ctid, s.nextTid % TWO32))
    case DoJoin(tid, out) => JoinThread(s, tid, out)
    case Yield => s.(stop := StopYield)
    case Lock(m) => MutexLock(s, m)
    case Unlock(m) => MutexUnlock(s, m)
    case CondWait(cv, m) => BlockSelf(MutexUnlock(s, m), Cond, cv, s.threads[s.cur].joinOut)
    case CondWake(cv, all) => WakeCond(s, cv, all)
    case Store(a, v) => s.(mem := s.mem[a := v])
    case SetHybrid(h) => s.(hybrid := h)
  }

  // ----- the run loop -----

  /** The state in which `run` enters its loop. It clears everything but `prefer_`
      and the mode flag. */
  function Start(prefer: Tid, hybrid: bool, mem: map<nat, nat>): (r: Sched) {
    Sched(map[0 := Thread(0, Runnable, NoBlock, 0, 0, 0)], map[], 0, 1, 0, prefer, hybrid, true,
          StopNone, mem, false)
  }

  function FinishCurrent(s: Sched, v: nat): (r: Sched)
    requires s.cur in s.threads
  {
    var s1 := s.(threads := s.threads[s.cur := s.threads[s.cur].(retval := v, state := Finished)]);
    WakeJoiners(s1, s.cur).(inSlice := false, running := s.cur != 0)
  }

  function EndSlice(s: Sched, o: Outcome): (r: Sched)
    requires s.cur in s.threads
  {
    if s.stop == StopBlock then s.(inSlice := false)
    else if s.stop == StopNone && o.Exit? then FinishCurrent(s, o.v)
    else s.(threads := s.threads[s.cur := s.threads[s.cur].(state := Runnable)], inSlice := false)
  }

  predicate Enabled(s: Sched, step: Step) {
    s.running && s.cur in s.threads &&
    match step
    case Pick => !s.inSlice && PickNext(s).1.Some?
    case Do(_) => s.inSlice && s.stop == StopNone
    case End(_) => s.inSlice
  }

  function Next(s: Sched, step: Step): (r: Sched)
    requires Enabled(s, step)
  {
    match step
    case Pick => PickNext(s).0.(cur := PickNext(s).1.value, stop := StopNone, inSlice := true)
    case Do(c) => Perform(s, c)
    case End(o) => EndSlice(s, o)
  }

  /** `states` is what the machine goes through when it takes `steps`. */
  ghost predicate IsRun(states: seq<Sched>, steps: seq<Step>) {
    |states| == |steps| + 1 &&
    forall i :: 0 <= i < |steps| ==>
      Enabled(states[i], steps[i]) && states[i + 1] == Next(states[i], steps[i])
  }
}
