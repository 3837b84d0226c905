// Join over whole runs: finished threads never change again, and a joiner gets
// the return value of its target whether it joined before or after the exit.

module SchedulerJoin {
  import opened SchedulerModel
  import opened SchedulerInvariant

  ghost predicate ExitsNow(s: Sched, step: Step, t: Tid) {
    s.cur == t && s.stop == StopNone && step.End? && step.outcome.Exit?
  }

  ghost predicate JoinsOn(s: Sched, joiner: Tid, target: Tid) {
    joiner in s.threads && Waits(s.threads[joiner], Join, target)
  }

  // Of the threads, a call touches only the caller and those it wakes.
  lemma CallFrame(s: Sched, c: Call, t: Tid)
    requires Inv(s) && Enabled(s, Do(c))
    requires t in s.threads && t != s.cur
    requires s.threads[t].state != Blocked || s.threads[t].block == Join
    ensures t in Perform(s, c).threads && Perform(s, c).threads[t] == s.threads[t]
  {
    hide FirstWaiter;
  }

  lemma StepKeepsFinished(s: Sched, step: Step, t: Tid)
    requires Inv(s) && Enabled(s, step)
    requires t in s.threads && s.threads[t].state == Finished
    ensures t in Next(s, step).threads && Next(s, step).threads[t] == s.threads[t]
  {
    match step
    case Pick => PickNextSpec(s);
    case Do(c) => CallFrame(s, c, t);
    case End(_) =>
  }

  /** Finished is absorbing: the whole record, return value included, is final. */
  lemma {:induction false} FinishedIsFinal(states: seq<Sched>, steps: seq<Step>, i: nat, j: nat, t: Tid)
    requires IsRun(states, steps) && Inv(states[0])
    requires i <= j < |states|
    requires t in states[i].threads && states[i].threads[t].state == Finished
    ensures t in states[j].threads && states[j].threads[t] == states[i].threads[t]
    decreases j - i
  {
    if i < j {
      FinishedIsFinal(states, steps, i, j - 1, t);
      RunKeepsInv(states, steps, j - 1);
      StepKeepsFinished(states[j - 1], steps[j - 1], t);
    }
  }

  lemma StepKeepsJoiner(s: Sched, step: Step, t: Tid, target: Tid)
    requires Inv(s) && Enabled(s, step) && JoinsOn(s, t, target)
    requires !ExitsNow(s, step, target)
    ensures t in Next(s, step).threads && Next(s, step).threads[t] == s.threads[t]
  {
    match step
    case Pick => PickNextSpec(s);
    case Do(c) => CallFrame(s, c, t);
    case End(_) =>
  }

  /** The exit of the target hands its value to the joiner and makes it runnable. */
  lemma ExitDelivers(s: Sched, step: Step, t: Tid, target: Tid)
    requires Inv(s) && Enabled(s, step) && JoinsOn(s, t, target)
    requires ExitsNow(s, step, target)
    ensures Delivered(s, Next(s, step), t, target, step.outcome.v)
  {
    assert ThreadOk(s.threads, t);
    var s1 := s.(threads := s.threads[s.cur := s.threads[s.cur].(retval := step.outcome.v, state := Finished)]);
    assert t != s.cur;
    if s.threads[t].joinOut != 0 {
      assert t in s1.threads && Waits(s1.threads[t], Join, target);
      assert s1.threads[t].joinOut in JoinOuts(s1.threads, target);
    }
  }

  /** From s to s', thread t came out of its join on target with value v. */
  ghost predicate Delivered(s: Sched, s': Sched, t: Tid, target: Tid, v: nat) {
    && target in s'.threads && s'.threads[target].state == Finished && s'.threads[target].retval == v
    && t in s.threads && t in s'.threads && s'.threads[t] == Woken(s.threads[t])
    && (s.threads[t].joinOut != 0 ==> s.threads[t].joinOut in s'.mem && s'.mem[s.threads[t].joinOut] == v)
  }

  /** Over every run: a thread seen blocked in a join on `target` at i and no longer
      so at j was released by exactly the exit of `target`, received the value the
      target exited with, and that value is what the target's record holds ever after. */
  lemma {:induction false} JoinDeliversOverRuns(states: seq<Sched>, steps: seq<Step>, i: nat, j: nat,
                                                t: Tid, target: Tid)
    returns (k: nat)
    requires IsRun(states, steps) && Inv(states[0])
    requires i <= j < |states| && JoinsOn(states[i], t, target)
    requires t !in states[j].threads || states[j].threads[t] != states[i].threads[t]
    ensures i <= k < j && ExitsNow(states[k], steps[k], target)
    ensures Delivered(states[k], states[k + 1], t, target, steps[k].outcome.v)
    ensures forall l :: k < l < |states| ==>
      target in states[l].threads && states[l].threads[target].state == Finished &&
      states[l].threads[target].retval == steps[k].outcome.v
    decreases j - i
  {
    RunKeepsInv(states, steps, i);
    if ExitsNow(states[i], steps[i], target) {
      k := i;
      ExitDelivers(states[i], steps[i], t, target);
      forall l | k < l < |states|
        ensures target in states[l].threads && states[l].threads[target] == states[k + 1].threads[target]
      {
        FinishedIsFinal(states, steps, k + 1, l, target);
      }
    } else {
      StepKeepsJoiner(states[i], steps[i], t, target);
      k := JoinDeliversOverRuns(states, steps, i + 1, j, t, target);
    }
  }

  /** A join after the exit does not block and delivers the same value: whatever
      exit of `target` the run contains at k, a later join reads its value. */
  lemma LateJoinAgrees(states: seq<Sched>, steps: seq<Step>, k: nat, l: nat, target: Tid, out: nat)
    requires IsRun(states, steps) && Inv(states[0])
    requires k < l < |steps|
    requires ExitsNow(states[k], steps[k], target) && steps[l] == Do(DoJoin(target, out))
    ensures states[l + 1].stop == StopNone && states[l + 1].threads == states[l].threads
    ensures out != 0 ==> states[l + 1].mem == states[l].mem[out := steps[k].outcome.v]
  {
    RunKeepsInv(states, steps, k);
    FinishedIsFinal(states, steps, k + 1, l, target);
  }

  /** In every reachable state a thread blocked in join waits on an existing
      unfinished thread, and block reason and blocked state agree. */
  lemma JoinTargetsLive(states: seq<Sched>, steps: seq<Step>, i: nat, t: Tid)
    requires IsRun(states, steps) && Inv(states[0])
    requires i < |states| && t in states[i].threads
    ensures states[i].threads[t].state == Blocked <==> states[i].threads[t].block != NoBlock
    ensures states[i].threads[t].block == Join ==>
      states[i].threads[t].obj in states[i].threads &&
      states[i].threads[states[i].threads[t].obj].state != Finished
  {
    RunKeepsInv(states, steps, i);
    assert ThreadOk(states[i].threads, t);
  }
}
