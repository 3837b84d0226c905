// The scheduler object itself: its fields, the calls the pthread stubs make on
// it and the run loop, each proved against the state machine of SchedulerModel.

module SchedulerClass {
  import opened Common
  import opened SchedulerInvariant
  import M = SchedulerModel

  /** What the guest does with one slice, as far as the scheduler can see. */
  datatype Slice = Slice(calls: seq<M.Call>, outcome: M.Outcome)

  datatype RunResult = Returned(value: nat) | Deadlock | StillRunning

  // ----- how far a loop over the thread map has come -----

  // Threads after the waking loop has visited `ids`.
  ghost function WokenIn(threads: map<M.Tid, M.Thread>, ids: seq<M.Tid>, why: M.Block, obj: nat): map<M.Tid, M.Thread> {
    map t | t in threads ::
      if t in ids && M.Waits(threads[t], why, obj) then M.Woken(threads[t]) else threads[t]
  }

  // Addresses written after the joiner loop has visited `ids`.
  ghost function OutsIn(threads: map<M.Tid, M.Thread>, ids: seq<M.Tid>, tid: M.Tid): set<nat> {
    set t | t in threads && t in ids && M.Waits(threads[t], M.Join, tid) && threads[t].joinOut != 0
      :: threads[t].joinOut
  }

  ghost predicate Distinct(ids: seq<M.Tid>) {
    forall i, j :: 0 <= i < j < |ids| ==> ids[i] != ids[j]
  }

  lemma WokenInStep(threads: map<M.Tid, M.Thread>, ids: seq<M.Tid>, i: nat, why: M.Block, obj: nat)
    requires i < |ids| && Distinct(ids) && ids[i] in threads
    ensures var done := WokenIn(threads, ids[..i], why, obj);
      ids[i] in done && done[ids[i]] == threads[ids[i]] &&
      WokenIn(threads, ids[..i + 1], why, obj) ==
        (if M.Waits(threads[ids[i]], why, obj) then done[ids[i] := M.Woken(threads[ids[i]])] else done)
  {
    assert ids[..i + 1] == ids[..i] + [ids[i]];
    assert ids[i] !in ids[..i];
  }

  /** The words after storing rv at each of the addresses. */
  function StoredAt(mem: map<nat, nat>, outs: set<nat>, rv: nat): map<nat, nat> {
    mem + map a | a in outs :: rv
  }

  lemma StoredNone(mem: map<nat, nat>, rv: nat)
    ensures StoredAt(mem, {}, rv) == mem
  {
  }

  lemma StoredIs(mem: map<nat, nat>, outs: set<nat>, rv: nat)
    ensures StoredAt(mem, outs, rv) == mem + map a | a in outs :: rv
  {
  }

  lemma StoredOneMore(mem: map<nat, nat>, outs: set<nat>, a: nat, rv: nat)
    ensures StoredAt(mem, outs + {a}, rv) == StoredAt(mem, outs, rv)[a := rv]
  {
  }

  lemma OutsInStep(threads: map<M.Tid, M.Thread>, ids: seq<M.Tid>, i: nat, tid: M.Tid)
    requires i < |ids| && ids[i] in threads
    ensures var t := threads[ids[i]];
      OutsIn(threads, ids[..i + 1], tid) ==
        OutsIn(threads, ids[..i], tid) + (if M.Waits(t, M.Join, tid) && t.joinOut != 0 then {t.joinOut} else {})
  {
    assert ids[..i + 1] == ids[..i] + [ids[i]];
    var t := threads[ids[i]];
    var lhs, old_ := OutsIn(threads, ids[..i + 1], tid), OutsIn(threads, ids[..i], tid);
    forall a | a in lhs && !(M.Waits(t, M.Join, tid) && a == t.joinOut) ensures a in old_ {
      var u :| u in threads && u in ids[..i + 1] && M.Waits(threads[u], M.Join, tid) && threads[u].joinOut == a != 0;
      assert u in ids[..i];
    }
    forall a | a in old_ ensures a in lhs {
      var u :| u in threads && u in ids[..i] && M.Waits(threads[u], M.Join, tid) && threads[u].joinOut == a != 0;
      assert u in ids[..i + 1];
    }
    if M.Waits(t, M.Join, tid) && t.joinOut != 0 {
      assert ids[i] in ids[..i + 1];
    }
  }

  lemma WokenInNone(threads: map<M.Tid, M.Thread>, why: M.Block, obj: nat)
    ensures WokenIn(threads, [], why, obj) == threads
    ensures forall tid :: OutsIn(threads, [], tid) == {}
  {
  }

  // Visiting every thread wakes every waiter.
  lemma WokenInAll(threads: map<M.Tid, M.Thread>, ids: seq<M.Tid>, why: M.Block, obj: nat, tid: M.Tid)
    requires forall t :: t in ids <==> t in threads
    ensures WokenIn(threads, ids, why, obj) == M.WakeAll(threads, why, obj)
    ensures OutsIn(threads, ids, tid) == M.JoinOuts(threads, tid)
  {
  }

  lemma FirstWaiterStep(threads: map<M.Tid, M.Thread>, ids: seq<M.Tid>, i: nat, why: M.Block, obj: nat)
    requires i < |ids| && forall t :: t in ids ==> t in threads
    ensures M.FirstWaiterFrom(threads, ids[i..], why, obj) ==
      if M.Waits(threads[ids[i]], why, obj) then Some(ids[i]) else M.FirstWaiterFrom(threads, ids[i + 1..], why, obj)
  {
    assert ids[i..][1..] == ids[i + 1..];
  }

  lemma NoWaiterLeft(threads: map<M.Tid, M.Thread>, ids: seq<M.Tid>, why: M.Block, obj: nat)
    requires ids == []
    ensures M.FirstWaiterFrom(threads, ids, why, obj) == None
  {
  }

  lemma ScanStep(threads: map<M.Tid, M.Thread>, ids: seq<M.Tid>, rr: nat, k: nat)
    requires k <= |ids|
    ensures M.Scan(threads, ids, rr, k) ==
      if k == |ids| then None
      else if M.IsRunnable(threads, ids[M.Turn(rr, k, |ids|)]) then Some(k)
      else M.Scan(threads, ids, rr, k + 1)
  {
  }

  ghost function Last(states: seq<M.Sched>): M.Sched
    requires states != []
  {
    states[|states| - 1]
  }

  lemma RunExtends(states: seq<M.Sched>, steps: seq<M.Step>, step: M.Step)
    requires M.IsRun(states, steps) && M.Enabled(Last(states), step)
    ensures M.IsRun(states + [M.Next(Last(states), step)], steps + [step])
  {
    hide M.Enabled, M.Next;
  }

  lemma PickEnabled(s: M.Sched, s': M.Sched, t: M.Tid)
    requires Inv(s) && s.running && !s.inSlice && (s', Some(t)) == M.PickNext(s)
    ensures M.Enabled(s, M.Pick) && M.Next(s, M.Pick) == s'.(cur := t, stop := M.StopNone, inSlice := true)
  {
    hide M.PickNext;
  }

  lemma CurrentExists(s: M.Sched)
    requires Inv(s)
    ensures s.cur in s.threads && 0 in s.threads
  {
  }

  lemma EndStops(s: M.Sched, o: M.Outcome)
    requires Inv(s) && s.running && s.inSlice
    ensures !M.EndSlice(s, o).inSlice
    ensures !M.EndSlice(s, o).running ==> M.EndSlice(s, o).threads[0].state == M.Finished
  {
  }

  class Scheduler {
    var threads: map<M.Tid, M.Thread>
    var owner: map<nat, M.Tid>
    var cur: M.Tid
    var nextTid: M.Tid
    var rr: nat
    var prefer: M.Tid
    var hybrid: bool
    var running: bool
    var stop: M.Stop
    var mem: map<nat, nat>
    var inSlice: bool

    constructor (guest: map<nat, nat>)
      ensures threads == map[] && owner == map[] && cur == 0 && nextTid == 1 && rr == 0 && prefer == 0
      ensures hybrid && !running && mem == guest && !inSlice
    {
      threads, owner, cur, nextTid, rr, prefer := map[], map[], 0, 1, 0, 0;
      hybrid, running, stop, mem, inSlice := true, false, M.StopNone, guest, false;
    }

    ghost function View(): M.Sched
      reads this
    {
      M.Sched(threads, owner, cur, nextTid, rr, prefer, hybrid, running, stop, mem, inSlice)
    }

    /** The round-robin scan: the first offset from the cursor with a runnable thread. */
    method ScanRunnable(ids: seq<M.Tid>) returns (r: Option<nat>)
      requires forall t :: t in ids ==> t in threads
      ensures r == M.Scan(threads, ids, rr, 0)
      ensures r.Some? ==> r.value < |ids|
    {
      hide M.Scan;
      var n := |ids|;
      var k := 0;
      while k < n
        invariant k <= n
        invariant M.Scan(threads, ids, rr, 0) == M.Scan(threads, ids, rr, k)
      {
        ScanStep(threads, ids, rr, k);
        var id := ids[M.Turn(rr, k, n)];
        if threads[id].state == M.Runnable {
          return Some(k);
        }
        k := k + 1;
      }
      ScanStep(threads, ids, rr, n);
      return None;
    }

    method RoundRobin() returns (r: Option<M.Tid>)
      modifies this`rr
      ensures (View(), r) == M.RoundRobin(old(View()))
    {
      hide Ascending, M.Scan, M.Turn;
      var ids := Ascending(threads.Keys);
      var k := ScanRunnable(ids);
      if k.None? {
        return None;
      }
      r := Some(ids[M.Turn(rr, k.value, |ids|)]);
      rr := M.Turn(rr, k.value + 1, |ids|);
    }

    method PickNext() returns (r: Option<M.Tid>)
      modifies this`rr, this`prefer
      ensures (View(), r) == M.PickNext(old(View()))
    {
      hide M.RoundRobin;
      if prefer != 0 {
        var p := prefer;
        prefer := 0;
        if p in threads && threads[p].state == M.Runnable {
          return Some(p);
        }
      }
      r := RoundRobin();
    }

    method WakeJoiners(tid: M.Tid)
      requires tid in threads
      modifies this`threads, this`mem
      ensures View() == M.WakeJoiners(old(View()), tid)
    {
      hide Ascending, WokenIn, OutsIn, StoredAt;
      var rv := threads[tid].retval;
      var ids := Ascending(threads.Keys);
      AscendingIncreases(threads.Keys);
      ghost var before := threads;
      WokenInNone(before, M.Join, tid);
      StoredNone(mem, rv);
      assert ids[..0] == [];
      for i := 0 to |ids|
        invariant threads == WokenIn(before, ids[..i], M.Join, tid)
        invariant mem == StoredAt(old(mem), OutsIn(before, ids[..i], tid), rv)
      {
        WokenInStep(before, ids, i, M.Join, tid);
        OutsInStep(before, ids, i, tid);
        var t := threads[ids[i]];
        ghost var outs := OutsIn(before, ids[..i], tid);
        StoredOneMore(old(mem), outs, t.joinOut, rv);
        assert outs + {} == outs;
        if t.state == M.Blocked && t.block == M.Join && t.obj == tid {
          if t.joinOut != 0 {
            mem := mem[t.joinOut := rv];
          }
          threads := threads[ids[i] := t.(block := M.NoBlock, state := M.Runnable)];
        }
      }
      assert ids[..|ids|] == ids;
      WokenInAll(before, ids, M.Join, tid, tid);
      StoredIs(old(mem), M.JoinOuts(before, tid), rv);
    }

    /** Returns the new thread's id. */
    method AddThread() returns (tid: M.Tid)
      requires cur in threads
      modifies this
      ensures tid == old(nextTid) && View() == M.AddThread(old(View()), old(mem))
    {
      tid := nextTid;
      nextTid := nextTid + 1;
      threads := threads[tid := M.Thread(tid, M.Runnable, M.NoBlock, 0, 0, 0)];
      if hybrid {
        threads := threads[cur := threads[cur].(state := M.Runnable)];
        prefer := tid;
        stop := M.StopYield;
      }
    }

    method Spawn(out: nat)
      requires cur in threads
      modifies this
      ensures View() == M.Perform(old(View()), M.Spawn(out))
    {
      var tid := AddThread();
      if out != 0 {
        mem := mem[out := tid];
      }
    }

    method SpawnClone(ptid: nat, ctid: nat) returns (tid: M.Tid)
      requires running ==> cur in threads
      modifies this
      ensures if old(running) then tid == old(nextTid) && View() == M.Perform(old(View()), M.Clone(ptid, ctid))
              else tid == 0 && View() == old(View())
    {
      if !running {
        return 0;
      }
      tid := AddThread();
      if ptid != 0 {
        mem := mem[ptid := tid % TWO32];
      }
      if ctid != 0 {
        mem := mem[ctid := tid % TWO32];
      }
    }

    method BlockSelf(why: M.Block, obj: nat, joinOut: nat)
      requires cur in threads
      modifies this`threads, this`stop
      ensures View() == M.BlockSelf(old(View()), why, obj, joinOut)
    {
      threads := threads[cur := threads[cur].(state := M.Blocked, block := why, obj := obj, joinOut := joinOut)];
      stop := M.StopBlock;
    }

    method DoJoin(tid: M.Tid, out: nat)
      requires cur in threads
      modifies this
      ensures View() == M.Perform(old(View()), M.DoJoin(tid, out))
    {
      if tid !in threads || threads[tid].state == M.Finished {
        if out != 0 {
          mem := mem[out := if tid in threads then threads[tid].retval else 0];
        }
        return;
      }
      BlockSelf(M.Join, tid, out);
    }

    method DoYield()
      modifies this`stop
      ensures View() == old(View()).(stop := M.StopYield)
    {
      stop := M.StopYield;
    }

    method MutexLock(m: nat)
      requires cur in threads
      modifies this
      ensures View() == M.MutexLock(old(View()), m)
    {
      if m !in owner || owner[m] == 0 {
        owner := owner[m := cur];
        return;
      }
      BlockSelf(M.Mutex, m, threads[cur].joinOut);
    }

    method MutexUnlock(m: nat)
      modifies this`threads, this`owner
      ensures View() == M.MutexUnlock(old(View()), m)
    {
      hide Ascending, M.FirstWaiterFrom;
      owner := owner[m := 0];
      var ids := Ascending(threads.Keys);
      var i := 0;
      assert ids[0..] == ids;
      while i < |ids|
        invariant i <= |ids| && View() == old(View()).(owner := old(owner)[m := 0])
        invariant M.FirstWaiterFrom(threads, ids, M.Mutex, m) == M.FirstWaiterFrom(threads, ids[i..], M.Mutex, m)
      {
        FirstWaiterStep(threads, ids, i, M.Mutex, m);
        var t := threads[ids[i]];
        if t.state == M.Blocked && t.block == M.Mutex && t.obj == m {
          owner := owner[m := t.tid];
          threads := threads[ids[i] := t.(block := M.NoBlock, state := M.Runnable)];
          return;
        }
        i := i + 1;
      }
      NoWaiterLeft(threads, ids[i..], M.Mutex, m);
    }

    method CondWait(c: nat, m: nat)
      requires cur in threads
      modifies this
      ensures View() == M.Perform(old(View()), M.CondWait(c, m))
    {
      hide M.FirstWaiter;
      var out := threads[cur].joinOut;
      MutexUnlock(m);
      BlockSelf(M.Cond, c, out);
    }

    method CondWake(c: nat, all: bool)
      modifies this`threads
      ensures View() == M.WakeCond(old(View()), c, all)
    {
      hide Ascending, M.FirstWaiterFrom, WokenIn;
      var ids := Ascending(threads.Keys);
      AscendingIncreases(threads.Keys);
      ghost var before := threads;
      WokenInNone(before, M.Cond, c);
      assert ids[0..] == ids && ids[..0] == [];
      var i := 0;
      while i < |ids|
        invariant i <= |ids|
        invariant threads == if all then WokenIn(before, ids[..i], M.Cond, c) else before
        invariant !all ==> M.FirstWaiterFrom(before, ids, M.Cond, c) == M.FirstWaiterFrom(before, ids[i..], M.Cond, c)
      {
        WokenInStep(before, ids, i, M.Cond, c);
        FirstWaiterStep(before, ids, i, M.Cond, c);
        var t := threads[ids[i]];
        if t.state == M.Blocked && t.block == M.Cond && t.obj == c {
          threads := threads[ids[i] := t.(block := M.NoBlock, state := M.Runnable)];
          if !all {
            return;
          }
        }
        i := i + 1;
      }
      assert ids[..|ids|] == ids;
      WokenInAll(before, ids, M.Cond, c, 0);
      NoWaiterLeft(before, ids[i..], M.Cond, c);
    }

    /** The stub layer: dispatch of one guest call. */
    method Perform(c: M.Call)
      requires running && cur in threads
      modifies this
      ensures View() == M.Perform(old(View()), c)
    {
      hide M.FirstWaiter;
      match c
      case Spawn(out) => Spawn(out);
      case Clone(ptid, ctid) => var _ := SpawnClone(ptid, ctid);
      case DoJoin(tid, out) => DoJoin(tid, out);
      case Yield => DoYield();
      case Lock(m) => MutexLock(m);
      case Unlock(m) => MutexUnlock(m);
      case CondWait(cv, m) => CondWait(cv, m);
      case CondWake(cv, all) => CondWake(cv, all);
      case Store(a, v) => mem := mem[a := v];
      case SetHybrid(h) => hybrid := h;
    }

    /** What the run loop does when a slice is over. */
    method EndSlice(o: M.Outcome)
      requires cur in threads && running
      modifies this
      ensures View() == M.EndSlice(old(View()), o)
    {
      if stop == M.StopBlock {
      } else if stop == M.StopYield || o.Preempt? {
        threads := threads[cur := threads[cur].(state := M.Runnable)];
      } else {
        threads := threads[cur := threads[cur].(retval := o.v, state := M.Finished)];
        WakeJoiners(cur);
        running := cur != 0;
      }
      inSlice := false;
    }

    ghost predicate IsTrace(states: seq<M.Sched>, steps: seq<M.Step>)
      reads this
    {
      M.IsRun(states, steps) && Last(states) == View() && Inv(View())
    }

    // Everything between two calls of pick_next.
    method RunSlice(t: M.Tid, slice: Slice, ghost states0: seq<M.Sched>, ghost steps0: seq<M.Step>)
      returns (ghost states: seq<M.Sched>, ghost steps: seq<M.Step>)
      requires M.IsRun(states0, steps0) && Inv(Last(states0)) && running && !inSlice
      requires (View(), Some(t)) == M.PickNext(Last(states0))
      modifies this
      ensures IsTrace(states, steps) && states[0] == states0[0] && !inSlice
      ensures !running ==> threads[0].state == M.Finished
    {
      hide M.PickNext, M.Perform, M.EndSlice, Inv;
      PickNextSpec(Last(states0));
      PickEnabled(Last(states0), View(), t);
      RunExtends(states0, steps0, M.Pick);
      StepKeepsInv(Last(states0), M.Pick);
      states, steps := states0 + [M.Next(Last(states0), M.Pick)], steps0 + [M.Pick];
      cur, stop, inSlice := t, M.StopNone, true;
      var i := 0;
      while i < |slice.calls| && stop == M.StopNone
        invariant 0 <= i <= |slice.calls| && running && inSlice
        invariant IsTrace(states, steps) && states[0] == states0[0]
      {
        CurrentExists(View());
        RunExtends(states, steps, M.Do(slice.calls[i]));
        StepKeepsInv(View(), M.Do(slice.calls[i]));
        states, steps := states + [M.Next(View(), M.Do(slice.calls[i]))], steps + [M.Do(slice.calls[i])];
        Perform(slice.calls[i]);
        i := i + 1;
      }
      CurrentExists(View());
      RunExtends(states, steps, M.End(slice.outcome));
      StepKeepsInv(View(), M.End(slice.outcome));
      EndStops(View(), slice.outcome);
      states, steps := states + [M.Next(View(), M.End(slice.outcome))], steps + [M.End(slice.outcome)];
      EndSlice(slice.outcome);
    }

    /** The main thread alone, about to run. */
    method Begin()
      modifies this
      ensures View() == M.Start(old(prefer), old(hybrid), old(mem)) && running && !inSlice
    {
      threads := map[0 := M.Thread(0, M.Runnable, M.NoBlock, 0, 0, 0)];
      owner, cur, rr, nextTid, running, stop, inSlice := map[], 0, 0, 1, true, M.StopNone, false;
    }

    /** The run loop, with what the guest does in each slice given in advance. It
        walks through a run of the state machine from its start state; it returns
        once thread 0 has exited, with that thread's value, and gives up only
        when no thread is runnable. */
    method Run(script: seq<Slice>) returns (r: RunResult, ghost states: seq<M.Sched>, ghost steps: seq<M.Step>)
      modifies this
      ensures M.IsRun(states, steps) && states[0] == M.Start(old(prefer), old(hybrid), old(mem))
      ensures View() == (if r.Deadlock? then Last(states).(prefer := 0) else Last(states)) && Inv(View())
      ensures r.Returned? ==> threads[0].state == M.Finished && r.value == threads[0].retval && !running
      ensures r.Deadlock? ==> running && forall t :: t in threads ==> threads[t].state != M.Runnable
    {
      hide M.PickNext, M.Next, M.Enabled, Inv, M.Start;
      StartInv(prefer, hybrid, mem);
      Begin();
      states, steps := [View()], [];
      var i := 0;
      while i < |script|
        invariant 0 <= i <= |script| && IsTrace(states, steps) && running && !inSlice
        invariant states[0] == M.Start(old(prefer), old(hybrid), old(mem))
      {
        PickNextSpec(View());
        NoPreferenceInv(View());
        var t := PickNext();
        if t.None? {
          return Deadlock, states, steps;
        }
        states, steps := RunSlice(t.value, script[i], states, steps);
        if !running {
          CurrentExists(View());
          return Returned(threads[0].retval), states, steps;
        }
        i := i + 1;
      }
      r := StillRunning;
    }
  }
}
