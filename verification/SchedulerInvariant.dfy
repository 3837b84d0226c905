// What every scheduler step keeps, and the join protocol over whole runs.

module SchedulerInvariant {
  import opened Common
  import opened SchedulerModel

  /** Ids are exactly 0..nextTid-1, a thread is blocked exactly when it has a
      block reason, a join waits on an existing unfinished thread, and the
      thread in the slice is runnable until it blocks. */
  ghost predicate Inv(s: Sched) {
    && (forall t: Tid :: t in s.threads <==> t < s.nextTid)
    && (forall t :: t in s.threads ==> ThreadOk(s.threads, t))
    && s.rr < s.nextTid
    && s.cur in s.threads
    && (s.inSlice ==> (s.threads[s.cur].state == Blocked <==> s.stop == StopBlock)
                      && s.threads[s.cur].state != Finished)
  }

  ghost predicate ThreadOk(threads: map<Tid, Thread>, t: Tid)
    requires t in threads
  {
    var th := threads[t];
    && th.tid == t
    && (th.state == Blocked <==> th.block != NoBlock)
    && (th.block == Join ==> th.obj in threads && threads[th.obj].state != Finished)
  }

  /** A stale preference left by an earlier run does no harm. */
  lemma StartInv(prefer: Tid, hybrid: bool, mem: map<nat, nat>)
    ensures Inv(Start(prefer, hybrid, mem))
    ensures PickNext(Start(prefer, hybrid, mem)).1 == Some(0)
  {
    var s := Start(prefer, hybrid, mem);
    AscendingRange(s.threads.Keys, 1);
  }

  // ----- pick_next -----

  lemma {:induction false} ScanFinds(threads: map<Tid, Thread>, ids: seq<Tid>, rr: nat, from: nat, k: nat)
    requires from <= k < |ids|
    requires IsRunnable(threads, ids[Turn(rr, k, |ids|)])
    ensures Scan(threads, ids, rr, from).Some? && from <= Scan(threads, ids, rr, from).value <= k
    ensures var j := Scan(threads, ids, rr, from).value; IsRunnable(threads, ids[Turn(rr, j, |ids|)])
    decreases k - from
  {
    if !IsRunnable(threads, ids[Turn(rr, from, |ids|)]) {
      ScanFinds(threads, ids, rr, from + 1, k);
    }
  }

  lemma {:induction false} ScanSound(threads: map<Tid, Thread>, ids: seq<Tid>, rr: nat, from: nat)
    requires from <= |ids|
    ensures match Scan(threads, ids, rr, from)
            case None => true
            case Some(j) => from <= j < |ids| && IsRunnable(threads, ids[Turn(rr, j, |ids|)])
    decreases |ids| - from
  {
    if from < |ids| && !IsRunnable(threads, ids[Turn(rr, from, |ids|)]) {
      ScanSound(threads, ids, rr, from + 1);
    }
  }

  /** How many positions the round-robin cursor is away from thread t. */
  function Distance(s: Sched, t: Tid): (d: nat)
    requires t < s.nextTid && s.rr < s.nextTid
    ensures d < s.nextTid
  {
    if s.rr <= t then t - s.rr else t - s.rr + s.nextTid
  }

  function Wrap(a: nat, n: nat): nat
    requires a < 2 * n
  {
    if a < n then a else a - n
  }

  lemma WrapMod(a: nat, n: nat)
    requires a < 2 * n
    ensures a % n == Wrap(a, n)
  {
    if a >= n {
      assert a == 1 * n + (a - n);
    }
  }

  lemma CursorReaches(s: Sched, t: Tid)
    requires Inv(s) && t in s.threads
    ensures |Ascending(s.threads.Keys)| == s.nextTid
    ensures Ascending(s.threads.Keys)[Turn(s.rr, Distance(s, t), s.nextTid)] == t
  {
    hide Ascending;
    AscendingRange(s.threads.Keys, s.nextTid);
    WrapMod(s.rr + Distance(s, t), s.nextTid);
  }

  lemma RunnableIsFound(s: Sched, t: Tid)
    requires Inv(s) && IsRunnable(s.threads, t)
    ensures Scan(s.threads, Ascending(s.threads.Keys), s.rr, 0).Some?
  {
    hide Ascending;
    CursorReaches(s, t);
    ScanFinds(s.threads, Ascending(s.threads.Keys), s.rr, 0, Distance(s, t));
  }

  /** pick_next answers null exactly when no thread is runnable, and otherwise a
      runnable thread; it changes nothing but the cursor and the preference. */
  lemma PickNextSpec(s: Sched)
    requires Inv(s)
    ensures PickNext(s).1.None? <==> forall t :: t in s.threads ==> s.threads[t].state != Runnable
    ensures PickNext(s).1.Some? ==> IsRunnable(s.threads, PickNext(s).1.value)
    ensures PickNext(s).0 == s.(prefer := 0, rr := PickNext(s).0.rr) && PickNext(s).0.rr < s.nextTid
    ensures PickNext(s).1.None? ==> PickNext(s).0.rr == s.rr
  {
    hide Ascending, Scan;
    var ids := Ascending(s.threads.Keys);
    AscendingRange(s.threads.Keys, s.nextTid);
    ScanSound(s.threads, ids, s.rr, 0);
    forall t | t in s.threads && s.threads[t].state == Runnable
      ensures PickNext(s).1.Some?
    {
      RunnableIsFound(s, t);
    }
  }

  lemma NoPreferenceInv(s: Sched)
    requires Inv(s)
    ensures Inv(s.(prefer := 0))
  {
  }

  // ----- every step keeps the invariant -----

  lemma PickKeepsInv(s: Sched)
    requires Inv(s) && Enabled(s, Pick)
    ensures Inv(Next(s, Pick))
  {
    PickNextSpec(s);
  }

  lemma AddThreadKeepsInv(s: Sched, mem: map<nat, nat>)
    requires Inv(s) && s.inSlice && s.stop == StopNone
    ensures Inv(AddThread(s, mem))
  {
    var s' := AddThread(s, mem);
    forall t | t in s'.threads ensures ThreadOk(s'.threads, t) {
      assert t in s.threads ==> ThreadOk(s.threads, t);
    }
  }

  lemma BlockSelfKeepsInv(s: Sched, why: Block, obj: nat, out: nat)
    requires Inv(s) && s.inSlice && s.stop == StopNone && why != NoBlock
    requires why == Join ==> obj in s.threads && s.threads[obj].state != Finished
    ensures Inv(BlockSelf(s, why, obj, out))
  {
    var s' := BlockSelf(s, why, obj, out);
    forall t | t in s'.threads ensures ThreadOk(s'.threads, t) {
      assert ThreadOk(s.threads, t);
    }
  }

  lemma WakeOneKeepsInv(s: Sched, t: Tid, owner: map<nat, Tid>)
    requires Inv(s) && s.inSlice && s.stop == StopNone
    requires t in s.threads && s.threads[t].state == Blocked
    ensures Inv(s.(threads := s.threads[t := Woken(s.threads[t])], owner := owner))
  {
    var threads' := s.threads[t := Woken(s.threads[t])];
    forall u | u in threads' ensures ThreadOk(threads', u) {
      assert ThreadOk(s.threads, u);
    }
  }

  lemma WakeAllKeepsInv(s: Sched, why: Block, obj: nat)
    requires Inv(s) && s.inSlice && s.stop == StopNone
    ensures Inv(s.(threads := WakeAll(s.threads, why, obj)))
  {
    var threads' := WakeAll(s.threads, why, obj);
    forall u | u in threads' ensures ThreadOk(threads', u) {
      assert ThreadOk(s.threads, u);
    }
  }

  lemma UnlockKeepsInv(s: Sched, m: nat)
    requires Inv(s) && s.inSlice && s.stop == StopNone
    ensures Inv(MutexUnlock(s, m)) && MutexUnlock(s, m).stop == StopNone && MutexUnlock(s, m).inSlice
  {
    hide FirstWaiter;
    match FirstWaiter(s.threads, Mutex, m)
    case None =>
    case Some(t) => WakeOneKeepsInv(s, t, MutexUnlock(s, m).owner);
  }

  lemma WakeCondKeepsInv(s: Sched, c: nat, all: bool)
    requires Inv(s) && s.inSlice && s.stop == StopNone
    ensures Inv(WakeCond(s, c, all))
  {
    hide FirstWaiter;
    if all {
      WakeAllKeepsInv(s, Cond, c);
    } else if FirstWaiter(s.threads, Cond, c).Some? {
      WakeOneKeepsInv(s, FirstWaiter(s.threads, Cond, c).value, s.owner);
    }
  }

  lemma DoKeepsInv(s: Sched, c: Call)
    requires Inv(s) && Enabled(s, Do(c))
    ensures Inv(Next(s, Do(c)))
  {
    hide FirstWaiter;
    match c
    case Spawn(out) => AddThreadKeepsInv(s, Poke(s.mem, out, s.nextTid));
    case Clone(_, _) => AddThreadKeepsInv(s, Next(s, Do(c)).mem);
    case DoJoin(tid, out) =>
      if tid in s.threads && s.threads[tid].state != Finished {
        BlockSelfKeepsInv(s, Join, tid, out);
      }
    case Lock(m) => BlockSelfKeepsInv(s, Mutex, m, s.threads[s.cur].joinOut);
    case Unlock(m) => UnlockKeepsInv(s, m);
    case CondWait(cv, m) =>
      UnlockKeepsInv(s, m);
      BlockSelfKeepsInv(MutexUnlock(s, m), Cond, cv, s.threads[s.cur].joinOut);
    case CondWake(cv, all) => WakeCondKeepsInv(s, cv, all);
    case Yield =>
    case Store(_, _) =>
    case SetHybrid(_) =>
  }

  lemma EndKeepsInv(s: Sched, o: Outcome)
    requires Inv(s) && Enabled(s, End(o))
    ensures Inv(Next(s, End(o)))
  {
    if s.stop == StopNone && o.Exit? {
      var s1 := s.(threads := s.threads[s.cur := s.threads[s.cur].(retval := o.v, state := Finished)]);
      var s2 := Next(s, End(o));
      forall t | t in s2.threads ensures ThreadOk(s2.threads, t) {
        assert s.threads[t].block == Join ==> ThreadOk(s.threads, t);
        assert s1.threads[t].block == Join && s1.threads[t].obj != s.cur ==> s2.threads[t] == s1.threads[t];
      }
    }
  }

  lemma StepKeepsInv(s: Sched, step: Step)
    requires Inv(s) && Enabled(s, step)
    ensures Inv(Next(s, step))
  {
    match step
    case Pick => PickKeepsInv(s);
    case Do(c) => DoKeepsInv(s, c);
    case End(o) => EndKeepsInv(s, o);
  }

  /** The invariant holds in every state of every run. */
  lemma {:induction false} RunKeepsInv(states: seq<Sched>, steps: seq<Step>, i: nat)
    requires IsRun(states, steps) && Inv(states[0])
    requires i < |states|
    ensures Inv(states[i])
  {
    if i > 0 {
      RunKeepsInv(states, steps, i - 1);
      StepKeepsInv(states[i - 1], steps[i - 1]);
    }
  }
}
