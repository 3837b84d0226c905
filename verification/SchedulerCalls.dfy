// What each call a guest thread makes does for it, in terms of the threads, the memory
// and the run, not of the scheduler's helpers.

module SchedulerCalls {
  import opened Common
  import opened SchedulerModel
  import opened SchedulerInvariant
  import opened SchedulerJoin

  /** The state s' after `step` was taken in s. */
  ghost predicate Takes(s: Sched, step: Step, s': Sched) {
    Inv(s) && Enabled(s, step) && s' == Next(s, step)
  }

  ghost predicate StateIs(s: Sched, t: Tid, state: RunState) {
    t in s.threads && s.threads[t].state == state
  }

  ghost predicate SameThread(s: Sched, s': Sched, t: Tid) {
    (t in s'.threads <==> t in s.threads) && (t in s.threads ==> s'.threads[t] == s.threads[t])
  }

  ghost predicate SameWord(s: Sched, s': Sched, a: nat) {
    (a in s'.mem <==> a in s.mem) && (a in s.mem ==> s'.mem[a] == s.mem[a])
  }

  // ----- pthread_create and clone -----

  /** A new runnable thread under an unused id; nobody else changes. In hybrid mode the
      caller makes way and the new thread is next, otherwise the caller goes on. */
  ghost predicate Created(s: Sched, s': Sched) {
    && s.nextTid !in s.threads && s'.nextTid == s.nextTid + 1
    && s.nextTid in s'.threads && s'.threads[s.nextTid] == Thread(s.nextTid, Runnable, NoBlock, 0, 0, 0)
    && s'.owner == s.owner && s'.cur == s.cur
    && (forall t :: t != s.nextTid ==> SameThread(s, s', t))
    && (if s.hybrid then s'.stop == StopYield && s'.prefer == s.nextTid
        else s'.stop == StopNone && s'.prefer == s.prefer)
  }

  lemma SpawnCreates(s: Sched, out: nat, s': Sched)
    requires Takes(s, Do(Spawn(out)), s')
    ensures Created(s, s')
    ensures s'.mem == if out == 0 then s.mem else s.mem[out := s.nextTid]
  {
    hide FirstWaiter;
    assert ThreadOk(s.threads, s.cur);
    assert s.threads[s.cur := s.threads[s.cur].(state := Runnable)] == s.threads;
  }

  lemma CloneCreates(s: Sched, ptid: nat, ctid: nat, s': Sched)
    requires Takes(s, Do(Clone(ptid, ctid)), s')
    ensures Created(s, s')
    ensures forall a :: a in {ptid, ctid} && a != 0 ==> a in s'.mem && s'.mem[a] == s.nextTid % TWO32
    ensures forall a :: a !in {ptid, ctid} || a == 0 ==> SameWord(s, s', a)
  {
    hide FirstWaiter;
    assert ThreadOk(s.threads, s.cur);
  }

  lemma PreferredIsPicked(s: Sched, s': Sched)
    requires Takes(s, Pick, s') && s.prefer != 0 && StateIs(s, s.prefer, Runnable)
    ensures s'.cur == s.prefer && s'.rr == s.rr && s'.threads == s.threads
  {
  }

  /** In hybrid mode a worker runs before its creator goes on, in every run. */
  lemma WorkerRunsFirst(states: seq<Sched>, steps: seq<Step>, i: nat)
    requires IsRun(states, steps) && Inv(states[0]) && i + 2 < |steps|
    requires steps[i].Do? && (steps[i].call.Spawn? || steps[i].call.Clone?) && states[i].hybrid
    ensures steps[i + 1].End? && steps[i + 2] == Pick
    ensures states[i + 3].inSlice && states[i + 3].cur == states[i].nextTid
  {
    hide Next, Enabled, Inv;
    RunKeepsInv(states, steps, i);
    RunKeepsInv(states, steps, i + 1);
    RunKeepsInv(states, steps, i + 2);
    var s, s1, s2 := states[i], states[i + 1], states[i + 2];
    CreatesThread(s, steps[i], s1);
    SameLoopAfter(s, steps[i], s1);
    YieldEnds(s1, steps[i + 1], s2);
    BetweenSlices(s2, steps[i + 2]);
    CurrentExists(s);
    assert s.nextTid != s1.cur && SameThread(s1, s2, s.nextTid);
    PickStarts(s2, states[i + 3]);
    PreferredIsPicked(s2, states[i + 3]);
  }

  lemma CurrentExists(s: Sched)
    requires Inv(s)
    ensures s.cur in s.threads && s.nextTid > 0
  {
  }

  lemma CreatesThread(s: Sched, step: Step, s': Sched)
    requires Takes(s, step, s') && step.Do? && (step.call.Spawn? || step.call.Clone?)
    ensures Created(s, s')
  {
    hide Next, Enabled, Inv, Created;
    if step.call.Spawn? {
      SpawnCreates(s, step.call.out, s');
    } else {
      CloneCreates(s, step.call.ptid, step.call.ctid, s');
    }
  }

  lemma BetweenSlices(s: Sched, step: Step)
    requires Enabled(s, step) && !s.inSlice
    ensures step == Pick
  {
  }

  lemma SameLoopAfter(s: Sched, step: Step, s': Sched)
    requires Takes(s, step, s') && step.Do?
    ensures s'.inSlice && s'.running && s'.cur == s.cur
  {
  }

  lemma YieldEnds(s: Sched, step: Step, s': Sched)
    requires Takes(s, step, s') && s.inSlice && s.stop == StopYield
    ensures step.End? && !s'.inSlice && s'.prefer == s.prefer && s'.mem == s.mem
    ensures forall t :: t != s.cur ==> SameThread(s, s', t)
    ensures StateIs(s', s.cur, Runnable)
  {
  }

  lemma PickStarts(s: Sched, s': Sched)
    requires Takes(s, Pick, s')
    ensures s'.inSlice && s'.stop == StopNone && s'.threads == s.threads && s'.mem == s.mem && s'.owner == s.owner
  {
    PickNextSpec(s);
  }

  /** The first state of a run: the main thread alone, runnable; memory, mode and a pending
      preference as they were before. */
  lemma RunBegins(prefer: Tid, hybrid: bool, mem: map<nat, nat>)
    ensures var s := Start(prefer, hybrid, mem);
      && s.threads.Keys == {0} && s.threads[0] == Thread(0, Runnable, NoBlock, 0, 0, 0)
      && s.cur == 0 && s.nextTid == 1 && s.rr == 0 && s.owner == map[] && s.running && !s.inSlice && s.stop == StopNone
      && s.mem == mem && s.prefer == prefer && s.hybrid == hybrid
  {
  }

  /** Calls that do one thing: a yield asks to be put off, a store changes one word, the
      mode flag can be switched. */
  lemma PlainCalls(s: Sched, call: Call, s': Sched)
    requires Takes(s, Do(call), s') && (call.Yield? || call.Store? || call.SetHybrid?)
    ensures s'.threads == s.threads && s'.owner == s.owner && s'.prefer == s.prefer
    ensures s'.stop == if call.Yield? then StopYield else s.stop
    ensures s'.hybrid == if call.SetHybrid? then call.h else s.hybrid
    ensures forall a :: !(call.Store? && call.a == a) ==> SameWord(s, s', a)
    ensures call.Store? ==> call.a in s'.mem && s'.mem[call.a] == call.v
  {
  }

  // ----- pthread_join -----

  /** A join on a thread that has not finished blocks the caller, with its own address. */
  lemma JoinBlocks(s: Sched, target: Tid, out: nat, s': Sched)
    requires Takes(s, Do(DoJoin(target, out)), s') && target in s.threads && s.threads[target].state != Finished
    ensures JoinsOn(s', s.cur, target) && s'.threads[s.cur].joinOut == out
    ensures s'.stop == StopBlock && s'.mem == s.mem && forall t :: t != s.cur ==> SameThread(s, s', t)
  {
  }

  /** A join on a thread that never existed stores 0 and goes on. */
  lemma JoinUnknown(s: Sched, target: Tid, out: nat, s': Sched)
    requires Takes(s, Do(DoJoin(target, out)), s') && target !in s.threads
    ensures s'.stop == StopNone && s'.threads == s.threads
    ensures s'.mem == if out == 0 then s.mem else s.mem[out := 0]
  {
  }

  lemma {:induction false} JoinerWaits(states: seq<Sched>, steps: seq<Step>, i: nat, k: nat, t: Tid, target: Tid)
    requires IsRun(states, steps) && Inv(states[0]) && i <= k < |steps|
    requires JoinsOn(states[i], t, target) && ExitsNow(states[k], steps[k], target)
    ensures t in states[k].threads && states[k].threads[t] == states[i].threads[t]
    decreases k - i
  {
    hide Next, Enabled, Inv;
    if i < k {
      RunKeepsInv(states, steps, i);
      RunKeepsInv(states, steps, k);
      if ExitsNow(states[i], steps[i], target) {
        ExitFinishes(states[i], steps[i], target);
        FinishedIsFinal(states, steps, i + 1, k, target);
        FinishedIsOut(states[k], steps[k], target);
      } else {
        StepKeepsJoiner(states[i], steps[i], t, target);
        JoinerWaits(states, steps, i + 1, k, t, target);
      }
    }
  }

  lemma ExitFinishes(s: Sched, step: Step, t: Tid)
    requires Inv(s) && Enabled(s, step) && ExitsNow(s, step, t)
    ensures StateIs(Next(s, step), t, Finished) && Next(s, step).threads[t].retval == step.outcome.v
    ensures Next(s, step).running <==> t != 0
  {
  }

  lemma FinishedIsOut(s: Sched, step: Step, t: Tid)
    requires Inv(s) && Enabled(s, step) && StateIs(s, t, Finished)
    ensures !ExitsNow(s, step, t)
  {
  }

  /** The join law, for the caller's own address: in every run, thread t joins an
      unfinished target at step i and asks for its value at `out`. When the target exits,
      at whatever later step k, the value is stored there and t is runnable. */
  lemma JoinStores(states: seq<Sched>, steps: seq<Step>, i: nat, k: nat, target: Tid, out: nat)
    requires IsRun(states, steps) && Inv(states[0]) && i < k < |steps| && out != 0
    requires steps[i] == Do(DoJoin(target, out))
    requires target in states[i].threads && states[i].threads[target].state != Finished
    requires ExitsNow(states[k], steps[k], target)
    ensures out in states[k + 1].mem && states[k + 1].mem[out] == steps[k].outcome.v
    ensures StateIs(states[k + 1], states[i].cur, Runnable)
  {
    hide Next, Enabled, Inv;
    RunKeepsInv(states, steps, i);
    RunKeepsInv(states, steps, k);
    var t := states[i].cur;
    JoinBlocks(states[i], target, out, states[i + 1]);
    JoinerWaits(states, steps, i + 1, k, t, target);
    ExitDelivers(states[k], steps[k], t, target);
  }

  // ----- mutexes -----

  /** A lock of an owned mutex waits; the owner keeps it. */
  lemma HeldLockWaits(s: Sched, m: nat, s': Sched)
    requires Takes(s, Do(Lock(m)), s') && m in s.owner && s.owner[m] != 0
    ensures s'.threads[s.cur] == s.threads[s.cur].(state := Blocked, block := Mutex, obj := m)
    ensures s'.stop == StopBlock && s'.owner == s.owner && s'.mem == s.mem
    ensures forall t :: t != s.cur ==> SameThread(s, s', t)
  {
  }

  /** A lock of a free mutex is the caller's; nothing else changes. */
  lemma FreeLockTaken(s: Sched, m: nat, s': Sched)
    requires Takes(s, Do(Lock(m)), s') && (m !in s.owner || s.owner[m] == 0)
    ensures s' == s.(owner := s.owner[m := s.cur])
  {
  }

  /** An unlock without waiters leaves the mutex free; with waiters, the one of least id
      owns it and can run, and nobody else changes. */
  ghost predicate Released(s: Sched, m: nat, s': Sched) {
    && m in s'.owner && s'.mem == s.mem
    && (forall n :: n != m && n in s.owner ==> n in s'.owner && s'.owner[n] == s.owner[n])
    && (if forall t :: t in s.threads ==> !Waits(s.threads[t], Mutex, m)
        then s'.owner[m] == 0 && s'.threads == s.threads
        else var w := s'.owner[m];
          && IsFirstWaiter(s.threads, Mutex, m, w)
          && s'.threads == s.threads[w := s.threads[w].(state := Runnable, block := NoBlock)])
  }

  lemma UnlockReleases(s: Sched, m: nat, s': Sched)
    requires Takes(s, Do(Unlock(m)), s')
    ensures Released(s, m, s') && s'.stop == StopNone
  {
    hide FirstWaiter;
    FirstWaiterIsLeast(s.threads, Mutex, m);
    match FirstWaiter(s.threads, Mutex, m)
    case None =>
    case Some(w) => assert ThreadOk(s.threads, w);
  }

  // ----- conditions -----

  ghost predicate WaitsOn(s: Sched, t: Tid, c: nat) {
    t in s.threads && Waits(s.threads[t], Cond, c)
  }

  /** A wait releases the mutex as an unlock does, and blocks the caller on the condition. */
  lemma WaitBlocks(s: Sched, c: nat, m: nat, s': Sched)
    requires Takes(s, Do(CondWait(c, m)), s')
    ensures WaitsOn(s', s.cur, c) && s'.stop == StopBlock
    ensures Released(s, m, s'.(threads := s'.threads[s.cur := s.threads[s.cur]]))
  {
    hide FirstWaiter;
    FirstWaiterIsLeast(s.threads, Mutex, m);
    match FirstWaiter(s.threads, Mutex, m)
    case None => assert s.threads[s.cur := s.threads[s.cur]] == s.threads;
    case Some(w) =>
      assert ThreadOk(s.threads, w) && w != s.cur;
      var woken := s.threads[w := s.threads[w].(state := Runnable, block := NoBlock)];
      assert s'.threads[s.cur := s.threads[s.cur]] == woken;
  }

  /** A broadcast wakes every waiter of the condition and nobody else. */
  lemma BroadcastWakes(s: Sched, c: nat, s': Sched)
    requires Takes(s, Do(CondWake(c, true)), s')
    ensures s'.threads.Keys == s.threads.Keys
    ensures forall t :: WaitsOn(s, t, c) ==> s'.threads[t] == s.threads[t].(state := Runnable, block := NoBlock)
    ensures forall t :: t in s.threads && !WaitsOn(s, t, c) ==> s'.threads[t] == s.threads[t]
    ensures s'.mem == s.mem && s'.owner == s.owner
  {
  }

  /** A signal wakes the waiter of least id, if there is one, and nobody else. */
  lemma SignalWakes(s: Sched, c: nat, s': Sched)
    requires Takes(s, Do(CondWake(c, false)), s')
    ensures (forall t :: !WaitsOn(s, t, c)) ==> s' == s
    ensures forall w :: IsFirstWaiter(s.threads, Cond, c, w) ==>
      s' == s.(threads := s.threads[w := s.threads[w].(state := Runnable, block := NoBlock)])
  {
    hide FirstWaiter;
    FirstWaiterIsLeast(s.threads, Cond, c);
    match FirstWaiter(s.threads, Cond, c)
    case None =>
    case Some(w) => assert WaitsOn(s, w, c);
  }

  lemma WaiterStays(s: Sched, step: Step, s': Sched, t: Tid, c: nat)
    requires Takes(s, step, s') && WaitsOn(s, t, c) && !(step.Do? && step.call.CondWake? && step.call.c == c)
    ensures t in s'.threads && s'.threads[t] == s.threads[t]
  {
    hide FirstWaiter, PickNext, Perform;
    assert ThreadOk(s.threads, t);
    match step
    case Pick => PickNextSpec(s);
    case End(_) =>
    case Do(call) => CallKeepsWaiter(s, call, t, c);
  }

  lemma CallKeepsWaiter(s: Sched, call: Call, t: Tid, c: nat)
    requires Inv(s) && Enabled(s, Do(call)) && WaitsOn(s, t, c) && !(call.CondWake? && call.c == c)
    ensures t in Perform(s, call).threads && Perform(s, call).threads[t] == s.threads[t]
  {
    hide FirstWaiter;
    assert ThreadOk(s.threads, t) && t != s.cur;
  }

  /** No wakeup is spurious, in every run: a thread seen waiting on a condition at i and
      no longer so at j was released by a signal or broadcast of that condition. */
  lemma {:induction false} OnlySignalsWake(states: seq<Sched>, steps: seq<Step>, i: nat, j: nat, t: Tid, c: nat)
    returns (k: nat)
    requires IsRun(states, steps) && Inv(states[0]) && i <= j < |states|
    requires WaitsOn(states[i], t, c) && (t !in states[j].threads || states[j].threads[t] != states[i].threads[t])
    ensures i <= k < j && steps[k].Do? && steps[k].call.CondWake? && steps[k].call.c == c
    ensures WaitsOn(states[k], t, c)
    decreases j - i
  {
    hide Next, Enabled, Inv;
    RunKeepsInv(states, steps, i);
    if steps[i].Do? && steps[i].call.CondWake? && steps[i].call.c == c {
      k := i;
    } else {
      WaiterStays(states[i], steps[i], states[i + 1], t, c);
      k := OnlySignalsWake(states, steps, i + 1, j, t, c);
    }
  }

  // ----- the end of a slice -----

  /** A thread that blocked stays blocked, one that exited is finished with its value, and
      any other can run again. Only exits touch other threads or memory, and only the exit
      of the main thread ends the run. */
  lemma SliceEnds(s: Sched, o: Outcome, s': Sched)
    requires Takes(s, End(o), s')
    ensures !s'.inSlice
    ensures s.stop == StopBlock ==> s' == s.(inSlice := false) && StateIs(s', s.cur, Blocked)
    ensures s.stop == StopNone && o.Exit? ==>
      StateIs(s', s.cur, Finished) && s'.threads[s.cur].retval == o.v && (s'.running <==> s.cur != 0)
    ensures s.stop != StopBlock && !(s.stop == StopNone && o.Exit?) ==>
      s' == s.(inSlice := false) && StateIs(s', s.cur, Runnable)
  {
    assert ThreadOk(s.threads, s.cur);
    assert s.threads[s.cur := s.threads[s.cur]] == s.threads;
  }

  /** Of memory, an exit changes only where its joiners asked for the value. */
  /** An exit writes nowhere but where a joiner asked for it; address 0 asks for nothing. */
  lemma ExitFrame(s: Sched, step: Step, a: nat)
    requires Inv(s) && Enabled(s, step) && ExitsNow(s, step, s.cur)
    requires a == 0 || forall t :: JoinsOn(s, t, s.cur) ==> s.threads[t].joinOut != a
    ensures SameWord(s, Next(s, step), a)
  {
    var s1 := s.(threads := s.threads[s.cur := s.threads[s.cur].(retval := step.outcome.v, state := Finished)]);
    if a in JoinOuts(s1.threads, s.cur) {
      var t :| t in s1.threads && Waits(s1.threads[t], Join, s.cur) && s1.threads[t].joinOut == a;
      assert JoinsOn(s, t, s.cur);
    }
  }
}
