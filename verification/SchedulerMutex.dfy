// Mutex hand-off over whole runs. Who is "inside" a mutex is read off the calls
// alone (a lock that returned, or a wait that was ended); the scheduler's owner
// table is then shown to agree with it.

module SchedulerMutex {
  import opened Common
  import opened SchedulerModel
  import opened SchedulerInvariant

  ghost predicate WaitsFor(s: Sched, t: Tid, m: nat) {
    t in s.threads && Waits(s.threads[t], Mutex, m)
  }

  /** Who is inside m after a step, given who was inside before. */
  ghost function InsideAfter(inside: set<Tid>, s: Sched, step: Step, m: nat): set<Tid>
    requires Enabled(s, step)
  {
    var s' := Next(s, step);
    var resumed := set t | t in s.threads && WaitsFor(s, t, m) && !WaitsFor(s', t, m);
    var left := if step == Do(Unlock(m)) then {s.cur} else {};
    var entered := if step == Do(Lock(m)) && !WaitsFor(s', s.cur, m) then {s.cur} else {};
    inside - left + entered + resumed
  }

  ghost function Inside(states: seq<Sched>, steps: seq<Step>, m: nat, i: nat): set<Tid>
    requires IsRun(states, steps) && i < |states|
  {
    if i == 0 then {}
    else InsideAfter(Inside(states, steps, m, i - 1), states[i - 1], steps[i - 1], m)
  }

  /** How clients must use m: workers only, no relock, only a thread that is
      inside unlocks, and no condition wait releases it. */
  ghost predicate Disciplined(inside: set<Tid>, s: Sched, step: Step, m: nat) {
    match step
    case Do(Lock(m')) => m' == m ==> s.cur != 0 && s.cur !in inside
    case Do(Unlock(m')) => m' == m ==> s.cur in inside
    case Do(CondWait(_, m')) => m' != m
    case _ => true
  }

  ghost predicate DisciplinedRun(states: seq<Sched>, steps: seq<Step>, m: nat)
    requires IsRun(states, steps)
  {
    forall i :: 0 <= i < |steps| ==> Disciplined(Inside(states, steps, m, i), states[i], steps[i], m)
  }

  function OwnerOf(s: Sched, m: nat): Tid {
    if m in s.owner then s.owner[m] else 0
  }

  /** The owner table tells the truth about m. */
  ghost predicate MutexInv(s: Sched, inside: set<Tid>, m: nat) {
    && inside == (if OwnerOf(s, m) == 0 then {} else {OwnerOf(s, m)})
    && forall t :: WaitsFor(s, t, m) ==> t != 0 && OwnerOf(s, m) != 0 && t != OwnerOf(s, m)
  }

  lemma WakeOneFrame(s: Sched, w: Tid, why: Block, obj: nat, m: nat)
    requires w in s.threads && Waits(s.threads[w], why, obj) && (why != Mutex || obj != m)
    ensures forall t :: WaitsFor(s.(threads := s.threads[w := Woken(s.threads[w])]), t, m) <==> WaitsFor(s, t, m)
  {
  }

  lemma WakeCondFrame(s: Sched, c: nat, all: bool, m: nat)
    ensures forall t :: WaitsFor(WakeCond(s, c, all), t, m) <==> WaitsFor(s, t, m)
  {
    hide FirstWaiter;
    if !all && FirstWaiter(s.threads, Cond, c).Some? {
      WakeOneFrame(s, FirstWaiter(s.threads, Cond, c).value, Cond, c, m);
    }
  }

  // A call that is no lock, unlock or condition wait leaves the waiters of m alone.
  lemma OtherCallFrame(s: Sched, c: Call, m: nat)
    requires Inv(s) && Enabled(s, Do(c))
    requires !c.Lock? && !c.Unlock? && !c.CondWait?
    ensures OwnerOf(Perform(s, c), m) == OwnerOf(s, m)
    ensures forall t :: WaitsFor(Perform(s, c), t, m) <==> WaitsFor(s, t, m)
  {
    hide WakeCond;
    if c.CondWake? {
      WakeCondFrame(s, c.c, c.all, m);
      assert WakeCond(s, c.c, c.all).owner == s.owner by { WakeCondOwner(s, c.c, c.all); }
    }
  }

  lemma WakeCondOwner(s: Sched, c: nat, all: bool)
    ensures WakeCond(s, c, all).owner == s.owner
  {
    hide FirstWaiter;
  }

  lemma OtherStepFrame(s: Sched, step: Step, m: nat)
    requires Inv(s) && Enabled(s, step)
    requires step.Do? ==> !step.call.Lock? && !step.call.Unlock? && !step.call.CondWait?
    ensures OwnerOf(Next(s, step), m) == OwnerOf(s, m)
    ensures forall t :: WaitsFor(Next(s, step), t, m) <==> WaitsFor(s, t, m)
  {
    hide Perform, PickNext;
    match step
    case Pick => PickNextSpec(s);
    case Do(c) => OtherCallFrame(s, c, m);
    case End(_) =>
  }

  // Unlocking m' wakes only waiters of m'.
  lemma UnlockFrame(s: Sched, m': nat, m: nat)
    requires Inv(s) && s.threads[s.cur].state == Runnable && m' != m
    ensures OwnerOf(MutexUnlock(s, m'), m) == OwnerOf(s, m)
    ensures forall t :: WaitsFor(MutexUnlock(s, m'), t, m) <==> WaitsFor(s, t, m)
  {
    hide FirstWaiter;
  }

  lemma OtherMutexFrame(s: Sched, step: Step, m: nat)
    requires Inv(s) && Enabled(s, step) && step.Do?
    requires match step.call
             case Lock(m') => m' != m
             case Unlock(m') => m' != m
             case CondWait(_, m') => m' != m
             case _ => false
    ensures OwnerOf(Next(s, step), m) == OwnerOf(s, m)
    ensures forall t :: WaitsFor(Next(s, step), t, m) <==> WaitsFor(s, t, m)
  {
    hide FirstWaiter, MutexUnlock;
    match step.call
    case Lock(_) =>
    case Unlock(m') => UnlockFrame(s, m', m);
    case CondWait(_, m') =>
      UnlockFrame(s, m', m);
      UnlockKeepsInv(s, m');
    case _ =>
  }

  lemma LockStep(s: Sched, inside: set<Tid>, m: nat)
    requires Inv(s) && Enabled(s, Do(Lock(m))) && MutexInv(s, inside, m)
    requires Disciplined(inside, s, Do(Lock(m)), m)
    ensures MutexInv(Next(s, Do(Lock(m))), InsideAfter(inside, s, Do(Lock(m)), m), m)
  {
    var s' := Next(s, Do(Lock(m)));
    assert forall t :: t != s.cur ==> (WaitsFor(s', t, m) <==> WaitsFor(s, t, m));
    assert !WaitsFor(s, s.cur, m);
  }

  lemma UnlockStep(s: Sched, inside: set<Tid>, m: nat)
    requires Inv(s) && Enabled(s, Do(Unlock(m))) && MutexInv(s, inside, m)
    requires Disciplined(inside, s, Do(Unlock(m)), m)
    ensures MutexInv(Next(s, Do(Unlock(m))), InsideAfter(inside, s, Do(Unlock(m)), m), m)
  {
    hide FirstWaiter;
    FirstWaiterIsLeast(s.threads, Mutex, m);
    var s' := Next(s, Do(Unlock(m)));
    var resumed := set t | t in s.threads && WaitsFor(s, t, m) && !WaitsFor(s', t, m);
    match FirstWaiter(s.threads, Mutex, m)
    case None =>
      assert forall t :: !WaitsFor(s, t, m);
      assert resumed == {};
    case Some(w) =>
      assert ThreadOk(s.threads, w);
      assert WaitsFor(s, w, m);
      assert forall t :: t != w ==> (WaitsFor(s', t, m) <==> WaitsFor(s, t, m));
      assert resumed == {w};
  }

  lemma MutexStep(s: Sched, inside: set<Tid>, step: Step, m: nat)
    requires Inv(s) && Enabled(s, step) && MutexInv(s, inside, m)
    requires Disciplined(inside, s, step, m)
    ensures MutexInv(Next(s, step), InsideAfter(inside, s, step, m), m)
  {
    hide Inv, Next, FirstWaiter;
    if step == Do(Lock(m)) {
      LockStep(s, inside, m);
    } else if step == Do(Unlock(m)) {
      UnlockStep(s, inside, m);
    } else {
      if step.Do? && (step.call.Lock? || step.call.Unlock? || step.call.CondWait?) {
        OtherMutexFrame(s, step, m);
      } else {
        OtherStepFrame(s, step, m);
      }
      assert InsideAfter(inside, s, step, m) == inside;
    }
  }

  lemma {:induction false} MutexInvOverRuns(states: seq<Sched>, steps: seq<Step>, m: nat, i: nat)
    requires IsRun(states, steps) && Inv(states[0]) && i < |states|
    requires OwnerOf(states[0], m) == 0 && forall t :: !WaitsFor(states[0], t, m)
    requires DisciplinedRun(states, steps, m)
    ensures MutexInv(states[i], Inside(states, steps, m, i), m)
  {
    if i > 0 {
      MutexInvOverRuns(states, steps, m, i - 1);
      RunKeepsInv(states, steps, i - 1);
      MutexStep(states[i - 1], Inside(states, steps, m, i - 1), steps[i - 1], m);
    }
  }

  /** Over every disciplined run: at most one thread is inside m, it is the recorded
      owner and is not itself waiting for m, and nobody waits for a free mutex, so
      no hand-off is lost. */
  lemma MutexSafety(states: seq<Sched>, steps: seq<Step>, m: nat, i: nat)
    requires IsRun(states, steps) && Inv(states[0]) && i < |states|
    requires OwnerOf(states[0], m) == 0 && forall t :: !WaitsFor(states[0], t, m)
    requires DisciplinedRun(states, steps, m)
    ensures |Inside(states, steps, m, i)| <= 1
    ensures forall t :: t in Inside(states, steps, m, i) ==>
      t != 0 && OwnerOf(states[i], m) == t && !WaitsFor(states[i], t, m)
    ensures forall t :: WaitsFor(states[i], t, m) ==>
      exists o :: o in Inside(states, steps, m, i) && OwnerOf(states[i], m) == o
  {
    MutexInvOverRuns(states, steps, m, i);
    var o := OwnerOf(states[i], m);
    if o != 0 {
      assert o in Inside(states, steps, m, i);
    }
  }

  /** An unlock hands m straight to the waiter of least id: it is runnable and owns m. */
  lemma UnlockHandsOff(s: Sched, m: nat, w: Tid)
    requires Inv(s) && Enabled(s, Do(Unlock(m)))
    requires IsFirstWaiter(s.threads, Mutex, m, w)
    ensures IsRunnable(Next(s, Do(Unlock(m))).threads, w)
    ensures OwnerOf(Next(s, Do(Unlock(m))), m) == w
  {
    hide FirstWaiter;
    FirstWaiterIsLeast(s.threads, Mutex, m);
    assert ThreadOk(s.threads, w);
  }

  /** A step that does not concern m. */
  predicate LeavesAlone(step: Step, m: nat) {
    match step
    case Do(Lock(m')) => m' != m
    case Do(Unlock(m')) => m' != m
    case Do(CondWait(_, m')) => m' != m
    case _ => true
  }

  lemma AloneKeepsOwner(s: Sched, step: Step, m: nat)
    requires Inv(s) && Enabled(s, step) && LeavesAlone(step, m)
    ensures OwnerOf(Next(s, step), m) == OwnerOf(s, m)
  {
    hide Next, Enabled, Inv, OwnerOf, WaitsFor;
    if step.Do? && (step.call.Lock? || step.call.Unlock? || step.call.CondWait?) {
      OtherMutexFrame(s, step, m);
    } else {
      OtherStepFrame(s, step, m);
    }
  }

  /** A free mutex lets the caller in; the record then names the caller, and for thread 0
      that is the value for free. */
  lemma FreeLock(s: Sched, m: nat)
    requires Inv(s) && Enabled(s, Do(Lock(m))) && OwnerOf(s, m) == 0
    ensures OwnerOf(Next(s, Do(Lock(m))), m) == s.cur && !WaitsFor(Next(s, Do(Lock(m))), s.cur, m)
  {
  }

  lemma {:induction false} MainStaysInside(states: seq<Sched>, steps: seq<Step>, m: nat, i: nat, j: nat)
    requires IsRun(states, steps) && Inv(states[0]) && i < j < |states|
    requires steps[i] == Do(Lock(m)) && states[i].cur == 0 && OwnerOf(states[i], m) == 0
    requires forall k :: i < k < j ==> LeavesAlone(steps[k], m)
    ensures 0 in Inside(states, steps, m, j) && OwnerOf(states[j], m) == 0
    decreases j
  {
    hide Next, Enabled, Inv, Inside, OwnerOf, WaitsFor;
    RunKeepsInv(states, steps, j - 1);
    if i + 1 < j {
      MainStaysInside(states, steps, m, i, j - 1);
      AloneKeepsOwner(states[j - 1], steps[j - 1], m);
    } else {
      FreeLock(states[i], m);
    }
    StaysInside(states, steps, m, j - 1, 0);
  }

  /** Why the rule that only workers use m is needed, in every run: once thread 0 has
      taken a free mutex, the next lock of it by any worker succeeds, and both are
      inside. */
  lemma MainLockAdmitsWorker(states: seq<Sched>, steps: seq<Step>, m: nat, i: nat, j: nat)
    requires IsRun(states, steps) && Inv(states[0]) && i < j < |steps|
    requires steps[i] == Do(Lock(m)) && states[i].cur == 0 && OwnerOf(states[i], m) == 0
    requires steps[j] == Do(Lock(m)) && states[j].cur != 0
    requires forall k :: i < k < j ==> LeavesAlone(steps[k], m)
    ensures {0, states[j].cur} <= Inside(states, steps, m, j + 1)
  {
    hide Next, Enabled, Inv, Inside, OwnerOf, WaitsFor;
    MainStaysInside(states, steps, m, i, j);
    RunKeepsInv(states, steps, j);
    FreeLock(states[j], m);
    StaysInside(states, steps, m, j, 0);
    StaysInside(states, steps, m, j, states[j].cur);
  }

  // The states of a run in which thread 0 locks m, creates a worker that runs
  // first, and the worker locks m.
  ghost function MainLockRun(m: nat): seq<Sched> {
    var main := Thread(0, Runnable, NoBlock, 0, 0, 0);
    var worker := main.(tid := 1);
    var s1 := Start(0, true, map[]).(inSlice := true);
    var s2 := s1.(owner := map[m := 0]);
    var s3 := s2.(threads := map[0 := main, 1 := worker], nextTid := 2, prefer := 1, stop := StopYield);
    var s4 := s3.(inSlice := false);
    var s5 := s4.(prefer := 0, cur := 1, stop := StopNone, inSlice := true);
    [Start(0, true, map[]), s1, s2, s3, s4, s5, s5.(owner := map[m := 1])]
  }

  ghost function MainLockSteps(m: nat): seq<Step> {
    [Pick, Do(Lock(m)), Do(Spawn(0)), End(Preempt), Pick, Do(Lock(m))]
  }

  lemma MainLockIsRun(m: nat)
    ensures IsRun(MainLockRun(m), MainLockSteps(m))
  {
    hide FirstWaiter, Ascending, Scan;
    var states := MainLockRun(m);
    StartInv(0, true, map[]);
    PickNextSpec(states[0]);
    assert PickNext(states[0]).0.rr == 0;
    assert Next(states[0], Pick) == states[1];
    assert Next(states[1], Do(Lock(m))) == states[2];
    assert Next(states[2], Do(Spawn(0))) == states[3];
    assert Next(states[3], End(Preempt)) == states[4];
    assert Next(states[4], Pick) == states[5];
    assert Next(states[5], Do(Lock(m))) == states[6];
  }

  lemma StaysInside(states: seq<Sched>, steps: seq<Step>, m: nat, i: nat, t: Tid)
    requires IsRun(states, steps) && i < |steps| && steps[i] != Do(Unlock(m))
    requires
      || t in Inside(states, steps, m, i)
      || (steps[i] == Do(Lock(m)) && t == states[i].cur && !WaitsFor(states[i + 1], t, m))
    ensures t in Inside(states, steps, m, i + 1)
  {
    hide Next, Enabled, WaitsFor;
    assert Inside(states, steps, m, i + 1) == InsideAfter(Inside(states, steps, m, i), states[i], steps[i], m);
    hide Inside;
  }

  /** Such a run exists, from the start: thread 0 locks m, creates a worker, and the
      worker's lock of m does not block. */
  lemma MainLockIsNotExclusive(m: nat)
    ensures IsRun(MainLockRun(m), MainLockSteps(m)) && MainLockRun(m)[0] == Start(0, true, map[])
    ensures {0, 1} <= Inside(MainLockRun(m), MainLockSteps(m), m, 6)
  {
    MainLockIsRun(m);
    StartInv(0, true, map[]);
    hide Inside, Enabled, Next, Inv;
    MainLockAdmitsWorker(MainLockRun(m), MainLockSteps(m), m, 1, 5);
  }
}
