// Exactly when a mutex excludes. Thread 0 cannot be recorded as an owner, so whether two
// threads can be inside depends on who locks while thread 0 is inside.

module SchedulerExclusion {
  import opened Common
  import opened SchedulerModel
  import opened SchedulerInvariant
  import opened SchedulerMutex

  /** Fair use of m by any thread, thread 0 included: no relock, only a thread that is
      inside unlocks, and no condition wait releases it. */
  ghost predicate Fair(inside: set<Tid>, s: Sched, step: Step, m: nat) {
    match step
    case Do(Lock(m')) => m' == m ==> s.cur !in inside
    case Do(Unlock(m')) => m' == m ==> s.cur in inside
    case Do(CondWait(_, m')) => m' != m
    case _ => true
  }

  ghost predicate FairRun(states: seq<Sched>, steps: seq<Step>, m: nat)
    requires IsRun(states, steps)
  {
    forall i :: 0 <= i < |steps| ==> Fair(Inside(states, steps, m, i), states[i], steps[i], m)
  }

  /** Not a lock by a worker while thread 0 is inside. */
  ghost predicate Admissible(inside: set<Tid>, s: Sched, step: Step, m: nat) {
    step == Do(Lock(m)) && s.cur != 0 ==> 0 !in inside
  }

  ghost predicate AdmissibleAt(states: seq<Sched>, steps: seq<Step>, m: nat, i: nat)
    requires IsRun(states, steps) && i < |steps|
  {
    Admissible(Inside(states, steps, m, i), states[i], steps[i], m)
  }

  /** What the owner table tells: a recorded owner is the one inside; without one nobody
      is inside, or thread 0 alone. Whoever waits waits for somebody inside. */
  ghost predicate ShareInv(s: Sched, inside: set<Tid>, m: nat) {
    && (OwnerOf(s, m) != 0 ==> inside == {OwnerOf(s, m)})
    && (OwnerOf(s, m) == 0 ==> inside <= {0})
    && forall t :: WaitsFor(s, t, m) ==> t !in inside && inside != {}
  }

  lemma ShareLock(s: Sched, inside: set<Tid>, m: nat)
    requires Inv(s) && Enabled(s, Do(Lock(m))) && ShareInv(s, inside, m)
    requires Fair(inside, s, Do(Lock(m)), m) && Admissible(inside, s, Do(Lock(m)), m)
    ensures ShareInv(Next(s, Do(Lock(m))), InsideAfter(inside, s, Do(Lock(m)), m), m)
  {
    var s' := Next(s, Do(Lock(m)));
    assert forall t :: t != s.cur ==> (WaitsFor(s', t, m) <==> WaitsFor(s, t, m));
    assert !WaitsFor(s, s.cur, m);
    assert (set t | t in s.threads && WaitsFor(s, t, m) && !WaitsFor(s', t, m)) == {};
  }

  lemma ShareUnlock(s: Sched, inside: set<Tid>, m: nat)
    requires Inv(s) && Enabled(s, Do(Unlock(m))) && ShareInv(s, inside, m)
    requires Fair(inside, s, Do(Unlock(m)), m)
    ensures ShareInv(Next(s, Do(Unlock(m))), InsideAfter(inside, s, Do(Unlock(m)), m), m)
  {
    hide FirstWaiter;
    FirstWaiterIsLeast(s.threads, Mutex, m);
    var s' := Next(s, Do(Unlock(m)));
    assert inside - {s.cur} == {};
    var resumed := set t | t in s.threads && WaitsFor(s, t, m) && !WaitsFor(s', t, m);
    match FirstWaiter(s.threads, Mutex, m)
    case None =>
      assert forall t :: !WaitsFor(s, t, m);
      assert resumed == {};
    case Some(w) =>
      assert ThreadOk(s.threads, w);
      assert WaitsFor(s, w, m);
      assert forall t :: t != w ==> (WaitsFor(s', t, m) <==> WaitsFor(s, t, m));
      assert resumed == {w};
  }

  lemma ShareStep(s: Sched, inside: set<Tid>, step: Step, m: nat)
    requires Inv(s) && Enabled(s, step) && ShareInv(s, inside, m)
    requires Fair(inside, s, step, m) && Admissible(inside, s, step, m)
    ensures ShareInv(Next(s, step), InsideAfter(inside, s, step, m), m)
  {
    hide Inv, Next, FirstWaiter, Enabled;
    if step == Do(Lock(m)) {
      ShareLock(s, inside, m);
    } else if step == Do(Unlock(m)) {
      ShareUnlock(s, inside, m);
    } else {
      if step.Do? && (step.call.Lock? || step.call.Unlock? || step.call.CondWait?) {
        OtherMutexFrame(s, step, m);
      } else {
        OtherStepFrame(s, step, m);
      }
      assert InsideAfter(inside, s, step, m) == inside;
    }
  }

  lemma {:induction false} ShareOverRuns(states: seq<Sched>, steps: seq<Step>, m: nat, i: nat)
    requires IsRun(states, steps) && Inv(states[0]) && i < |states| && FairRun(states, steps, m)
    requires OwnerOf(states[0], m) == 0 && forall t :: !WaitsFor(states[0], t, m)
    requires forall k :: 0 <= k < i ==> AdmissibleAt(states, steps, m, k)
    ensures ShareInv(states[i], Inside(states, steps, m, i), m)
  {
    hide Next, Enabled, Inv, WaitsFor, OwnerOf, Fair, InsideAfter;
    if i > 0 {
      ShareOverRuns(states, steps, m, i - 1);
      RunKeepsInv(states, steps, i - 1);
      assert AdmissibleAt(states, steps, m, i - 1);
      ShareStep(states[i - 1], Inside(states, steps, m, i - 1), steps[i - 1], m);
    }
  }

  lemma TwoInside(inside: set<Tid>, a: Tid, b: Tid)
    requires a in inside && b in inside && a != b
    ensures |inside| >= 2
  {
    assert {a, b} <= inside;
    SubsetSize({a, b}, inside);
  }

  lemma {:induction false} SubsetSize(a: set<Tid>, b: set<Tid>)
    requires a <= b
    ensures |a| <= |b|
  {
    if a != {} {
      var x :| x in a;
      SubsetSize(a - {x}, b - {x});
    }
  }

  /** However thread 0 came inside, by its own lock or by a hand-off: the next lock by a
      worker succeeds, and both are inside. */
  lemma WorkerOvertakes(states: seq<Sched>, steps: seq<Step>, m: nat, i: nat)
    requires IsRun(states, steps) && Inv(states[0]) && i < |steps| && FairRun(states, steps, m)
    requires OwnerOf(states[0], m) == 0 && forall t :: !WaitsFor(states[0], t, m)
    requires forall k :: 0 <= k < i ==> AdmissibleAt(states, steps, m, k)
    requires steps[i] == Do(Lock(m)) && states[i].cur != 0 && 0 in Inside(states, steps, m, i)
    ensures {0, states[i].cur} <= Inside(states, steps, m, i + 1) && |Inside(states, steps, m, i + 1)| >= 2
  {
    hide Next, Enabled, Inv, WaitsFor, OwnerOf, Inside, Fair;
    ShareOverRuns(states, steps, m, i);
    RunKeepsInv(states, steps, i);
    FreeLock(states[i], m);
    StaysInside(states, steps, m, i, 0);
    StaysInside(states, steps, m, i, states[i].cur);
    TwoInside(Inside(states, steps, m, i + 1), 0, states[i].cur);
  }

  ghost predicate Exclusive(states: seq<Sched>, steps: seq<Step>, m: nat)
    requires IsRun(states, steps)
  {
    forall i :: 0 <= i < |states| ==> |Inside(states, steps, m, i)| <= 1
  }

  lemma {:induction false} ExclusiveIsAdmissible(states: seq<Sched>, steps: seq<Step>, m: nat, i: nat)
    requires IsRun(states, steps) && Inv(states[0]) && i <= |steps| && FairRun(states, steps, m)
    requires OwnerOf(states[0], m) == 0 && forall t :: !WaitsFor(states[0], t, m)
    requires Exclusive(states, steps, m)
    ensures forall k :: 0 <= k < i ==> AdmissibleAt(states, steps, m, k)
  {
    hide Next, Enabled, Inv, WaitsFor, OwnerOf, Inside, FairRun;
    if i > 0 {
      ExclusiveIsAdmissible(states, steps, m, i - 1);
      if !AdmissibleAt(states, steps, m, i - 1) { WorkerOvertakes(states, steps, m, i - 1); }
    }
  }

  /** Mutual exclusion, exactly. In every run that uses m fairly, at most one thread is
      ever inside if and only if no worker locks m while thread 0 is inside. */
  lemma ExclusionIff(states: seq<Sched>, steps: seq<Step>, m: nat)
    requires IsRun(states, steps) && Inv(states[0]) && FairRun(states, steps, m)
    requires OwnerOf(states[0], m) == 0 && forall t :: !WaitsFor(states[0], t, m)
    ensures Exclusive(states, steps, m) <==> forall i :: 0 <= i < |steps| ==> AdmissibleAt(states, steps, m, i)
  {
    hide Next, Enabled, Inv, WaitsFor, OwnerOf, Inside, FairRun, AdmissibleAt;
    if Exclusive(states, steps, m) {
      ExclusiveIsAdmissible(states, steps, m, |steps|);
    }
    if forall i :: 0 <= i < |steps| ==> AdmissibleAt(states, steps, m, i) {
      forall i | 0 <= i < |states| ensures |Inside(states, steps, m, i)| <= 1 {
        ShareOverRuns(states, steps, m, i);
        AtMostOne(states[i], Inside(states, steps, m, i), m);
      }
    }
  }

  lemma AtMostOne(s: Sched, inside: set<Tid>, m: nat)
    requires ShareInv(s, inside, m)
    ensures |inside| <= 1
  {
    hide WaitsFor;
    SubsetSize(inside, if OwnerOf(s, m) != 0 then {OwnerOf(s, m)} else {0});
  }
}
