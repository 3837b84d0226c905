// Bounded waiting: a runnable thread that is not running is picked within
// n + 2k calls of pick_next (one more if a preference is pending), where n is
// the thread count and k the number of threads created meanwhile.

module SchedulerFairness {
  import opened Common
  import opened SchedulerModel
  import opened SchedulerInvariant
  import opened SchedulerJoin

  ghost predicate RunsNow(s: Sched, t: Tid) {
    s.inSlice && s.cur == t
  }

  /** Runnable, but some other thread (or none) has the processor. */
  ghost predicate Queued(s: Sched, t: Tid) {
    IsRunnable(s.threads, t) && !RunsNow(s, t)
  }

  function Pending(s: Sched): nat {
    if s.prefer != 0 then 1 else 0
  }

  ghost function Potential(s: Sched, t: Tid): nat
    requires Inv(s) && t in s.threads
  {
    Distance(s, t) + Pending(s)
  }

  predicate IsSpawn(step: Step) {
    step.Do? && (step.call.Spawn? || step.call.Clone?)
  }

  function Picks(steps: seq<Step>): nat {
    if steps == [] then 0 else Picks(steps[..|steps| - 1]) + (if steps[|steps| - 1] == Pick then 1 else 0)
  }

  function Spawns(steps: seq<Step>): nat {
    if steps == [] then 0 else Spawns(steps[..|steps| - 1]) + (if IsSpawn(steps[|steps| - 1]) then 1 else 0)
  }

  // ----- one step -----

  // The cursor passes over k threads and the one it picks.
  lemma CursorMoves(s: Sched, t: Tid, k: nat)
    requires t < s.nextTid && s.rr < s.nextTid && k <= Distance(s, t)
    requires Wrap(s.rr + k, s.nextTid) != t
    ensures Distance(s.(rr := Wrap(s.rr + k + 1, s.nextTid)), t) + k + 1 == Distance(s, t)
  {
  }

  lemma RoundRobinScan(s: Sched, t: Tid) returns (k: nat)
    requires Inv(s) && IsRunnable(s.threads, t)
    ensures k <= Distance(s, t)
    ensures Scan(s.threads, Ascending(s.threads.Keys), s.rr, 0) == Some(k)
  {
    hide Ascending, Scan;
    CursorReaches(s, t);
    ScanFinds(s.threads, Ascending(s.threads.Keys), s.rr, 0, Distance(s, t));
    k := Scan(s.threads, Ascending(s.threads.Keys), s.rr, 0).value;
  }

  lemma RoundRobinPick(s: Sched, k: nat)
    requires Inv(s) && k < s.nextTid
    requires s.prefer == 0 || !IsRunnable(s.threads, s.prefer)
    requires Scan(s.threads, Ascending(s.threads.Keys), s.rr, 0) == Some(k)
    ensures PickNext(s) == (s.(prefer := 0, rr := Wrap(s.rr + k + 1, s.nextTid)), Some(Wrap(s.rr + k, s.nextTid)))
  {
    hide Ascending, Scan;
    AscendingRange(s.threads.Keys, s.nextTid);
    WrapMod(s.rr + k, s.nextTid);
    WrapMod(s.rr + k + 1, s.nextTid);
  }

  lemma PickCost(s: Sched, t: Tid)
    requires Inv(s) && Enabled(s, Pick) && IsRunnable(s.threads, t)
    ensures Inv(Next(s, Pick))
    ensures Next(s, Pick).cur == t || Potential(Next(s, Pick), t) + 1 <= Potential(s, t)
  {
    hide Ascending, Scan;
    PickKeepsInv(s);
    if s.prefer == 0 || !IsRunnable(s.threads, s.prefer) {
      hide PickNext;
      var k := RoundRobinScan(s, t);
      RoundRobinPick(s, k);
      if Wrap(s.rr + k, s.nextTid) != t {
        CursorMoves(s, t, k);
      }
    }
  }

  lemma StepCost(s: Sched, step: Step, t: Tid)
    requires Inv(s) && Enabled(s, step) && Queued(s, t)
    requires !RunsNow(Next(s, step), t)
    ensures Inv(Next(s, step)) && Queued(Next(s, step), t)
    ensures Potential(Next(s, step), t) + (if step == Pick then 1 else 0)
         <= Potential(s, t) + (if IsSpawn(step) then 2 else 0)
  {
    hide Perform, PickNext;
    StepKeepsInv(s, step);
    match step
    case Pick => PickCost(s, t); PickNextSpec(s);
    case Do(c) => CallFrame(s, c, t);
    case End(_) =>
  }

  // ----- whole runs -----

  ghost predicate NeverRuns(states: seq<Sched>, t: Tid) {
    forall i :: 0 <= i < |states| ==> !RunsNow(states[i], t)
  }

  /** A queued thread stays queued as long as it is not picked, and every pick that
      passes it over is paid for. */
  lemma {:induction false} WaitingIsPaidFor(states: seq<Sched>, steps: seq<Step>, t: Tid)
    requires IsRun(states, steps) && Inv(states[0]) && Queued(states[0], t)
    requires NeverRuns(states, t)
    ensures Inv(states[|steps|]) && Queued(states[|steps|], t)
    ensures Picks(steps) + Potential(states[|steps|], t) <= Potential(states[0], t) + 2 * Spawns(steps)
  {
    hide Inv, Next, Enabled, Potential, Queued, RunsNow;
    var n := |steps|;
    if n > 0 {
      WaitingIsPaidFor(states[..n], steps[..n - 1], t);
      assert !RunsNow(states[n], t);
      StepCost(states[n - 1], steps[n - 1], t);
    }
  }

  /** The sharp bound. A queued thread has run once pick_next was called more often than
      the cursor is away from it, plus one for a pending preference and two for each
      thread created meanwhile. */
  lemma WaitingWithinDistance(states: seq<Sched>, steps: seq<Step>, t: Tid) returns (i: nat)
    requires IsRun(states, steps) && Inv(states[0]) && Queued(states[0], t)
    requires Picks(steps) > Distance(states[0], t) + Pending(states[0]) + 2 * Spawns(steps)
    ensures 0 < i < |states| && RunsNow(states[i], t)
  {
    if NeverRuns(states, t) {
      WaitingIsPaidFor(states, steps, t);
    }
    i :| 0 <= i < |states| && RunsNow(states[i], t);
  }

  /** Bounded waiting. In a run that calls pick_next n + 2k times (n + 2k + 1 if a
      preference was pending), a thread that was queued at the start has run. */
  lemma BoundedWaiting(states: seq<Sched>, steps: seq<Step>, t: Tid) returns (i: nat)
    requires IsRun(states, steps) && Inv(states[0]) && Queued(states[0], t)
    requires Picks(steps) >= states[0].nextTid + 2 * Spawns(steps) + Pending(states[0])
    ensures 0 < i < |states| && RunsNow(states[i], t)
  {
    assert Distance(states[0], t) < states[0].nextTid;
    i := WaitingWithinDistance(states, steps, t);
  }

  // ----- the pending preference does cost a turn -----

  function Idle(t: Tid): Thread {
    Thread(t, Runnable, NoBlock, 0, 0, 0)
  }

  // Between two slices, all of the first n threads runnable.
  function Rest(n: nat, cur: Tid, rr: nat, prefer: Tid): Sched {
    Sched(map t: nat | 0 <= t < n :: Idle(t), map[], cur, n, rr, prefer, true, true, StopYield, map[], false)
  }

  function Slice(n: nat, cur: Tid, rr: nat): Sched {
    Rest(n, cur, rr, 0).(stop := StopNone, inSlice := true)
  }

  lemma RestInv(n: nat, cur: Tid, rr: nat, prefer: Tid)
    requires cur < n && rr < n
    ensures Inv(Rest(n, cur, rr, prefer))
  {
  }

  const TURN: seq<Step> := [Pick, Do(Yield), End(Preempt)]

  // The states of a turn: thread t gets a slice and yields.
  function Round(before: Sched, t: Tid, rr: nat): seq<Sched> {
    var n := before.nextTid;
    [before, Slice(n, t, rr), Slice(n, t, rr).(stop := StopYield), Rest(n, t, rr, 0)]
  }

  lemma TurnIsRun(before: Sched, t: Tid, rr: nat)
    requires t < before.nextTid && Enabled(before, Pick) && Next(before, Pick) == Slice(before.nextTid, t, rr)
    ensures IsRun(Round(before, t, rr), TURN)
  {
    hide PickNext;
    var n := before.nextTid;
    var s := Slice(n, t, rr).(stop := StopYield);
    assert s.threads[t := s.threads[t].(state := Runnable)] == s.threads;
    assert Next(Slice(n, t, rr), Do(Yield)) == s;
    assert Next(s, End(Preempt)) == Rest(n, t, rr, 0);
    hide Next, Enabled;
  }

  lemma PickByCursor(n: nat, cur: Tid, rr: nat)
    requires cur < n && rr < n
    ensures Enabled(Rest(n, cur, rr, 0), Pick)
    ensures Next(Rest(n, cur, rr, 0), Pick) == Slice(n, rr, Wrap(rr + 1, n))
  {
    hide Ascending;
    RestInv(n, cur, rr, 0);
    var r := Rest(n, cur, rr, 0);
    AscendingRange(r.threads.Keys, n);
    WrapMod(rr, n);
    assert Scan(r.threads, Ascending(r.threads.Keys), rr, 0) == Some(0);
    hide Scan, PickNext;
    RoundRobinPick(r, 0);
  }

  lemma RunsCompose(states: seq<Sched>, steps: seq<Step>, states': seq<Sched>, steps': seq<Step>)
    requires IsRun(states, steps) && IsRun(states', steps') && states[|steps|] == states'[0]
    ensures IsRun(states + states'[1..], steps + steps')
  {
    hide Enabled, Next;
    var ss, pp := states + states'[1..], steps + steps';
    forall i | 0 <= i < |pp| ensures Enabled(ss[i], pp[i]) && ss[i + 1] == Next(ss[i], pp[i]) {
      if i >= |steps| {
        assert ss[i] == states'[i - |steps|] && ss[i + 1] == states'[i - |steps| + 1];
      }
    }
  }

  lemma CountTurn(steps: seq<Step>)
    ensures Picks(steps + TURN) == Picks(steps) + 1
    ensures Spawns(steps + TURN) == Spawns(steps)
  {
    var s1, s2, s3 := steps + [Pick], steps + [Pick, Do(Yield)], steps + TURN;
    assert s1[..|s1| - 1] == steps;
    assert s2[..|s2| - 1] == s1;
    assert s3[..|s3| - 1] == s2;
    assert Picks(s2) == Picks(s1);
    assert Spawns(s2) == Spawns(s1);
  }

  function ThreeTurns(): seq<Sched> {
    Round(Rest(3, 0, 1, 2), 2, 1) + Round(Rest(3, 2, 1, 0), 1, 2)[1..] + Round(Rest(3, 1, 2, 0), 2, 0)[1..]
  }

  lemma PickByPreference(n: nat, cur: Tid, rr: nat, p: Tid)
    requires cur < n && rr < n && 0 < p < n
    ensures Enabled(Rest(n, cur, rr, p), Pick)
    ensures Next(Rest(n, cur, rr, p), Pick) == Slice(n, p, rr)
  {
    hide Ascending, Scan;
  }

  lemma ThreeTurnsIsRun()
    ensures IsRun(ThreeTurns(), TURN + TURN + TURN)
  {
    hide PickNext, Enabled, Next, IsRun;
    PickByPreference(3, 0, 1, 2);
    TurnIsRun(Rest(3, 0, 1, 2), 2, 1);
    PickByCursor(3, 2, 1);
    TurnIsRun(Rest(3, 2, 1, 0), 1, 2);
    PickByCursor(3, 1, 2);
    TurnIsRun(Rest(3, 1, 2, 0), 2, 0);
    hide Rest, Slice;
    var a, b, c := Round(Rest(3, 0, 1, 2), 2, 1), Round(Rest(3, 2, 1, 0), 1, 2), Round(Rest(3, 1, 2, 0), 2, 0);
    assert a[3] == b[0] && b[3] == c[0] && |a| == |b| == 4;
    RunsCompose(a, TURN, b, TURN);
    assert (a + b[1..])[6] == c[0];
    RunsCompose(a + b[1..], TURN + TURN, c, TURN);
  }

  // A turn in which the thread creates another and makes way for it.
  const SPAWN_TURN: seq<Step> := [Pick, Do(Spawn(0)), End(Preempt)]

  function SpawnRound(before: Sched, t: Tid, rr: nat): seq<Sched> {
    var n := before.nextTid;
    [before, Slice(n, t, rr), Rest(n + 1, t, rr, n).(inSlice := true), Rest(n + 1, t, rr, n)]
  }

  lemma SpawnTurnIsRun(before: Sched, t: Tid, rr: nat)
    requires t < before.nextTid && Enabled(before, Pick) && Next(before, Pick) == Slice(before.nextTid, t, rr)
    ensures IsRun(SpawnRound(before, t, rr), SPAWN_TURN)
  {
    hide PickNext;
    var n := before.nextTid;
    var s, r := Slice(n, t, rr), Rest(n + 1, t, rr, n);
    assert s.threads[n := Idle(n)][t := Idle(t)] == r.threads;
    assert Next(s, Do(Spawn(0))) == r.(inSlice := true);
    assert r.threads[t := r.threads[t].(state := Runnable)] == r.threads;
    assert Next(r.(inSlice := true), End(Preempt)) == r;
    hide Next, Enabled;
  }

  lemma FirstPick()
    ensures Enabled(Start(0, true, map[]), Pick) && Next(Start(0, true, map[]), Pick) == Slice(1, 0, 0)
  {
    hide Ascending, Scan;
    var s := Start(0, true, map[]);
    StartInv(0, true, map[]);
    PickNextSpec(s);
    assert PickNext(s).0.rr == 0;
    assert s.threads == Slice(1, 0, 0).threads;
  }

  /** From the start: the main thread creates thread 1, which yields, and then thread 2,
      which the next pick will prefer. */
  function WayThere(): seq<Sched> {
    SpawnRound(Start(0, true, map[]), 0, 0) + Round(Rest(2, 0, 0, 1), 1, 0)[1..] +
    SpawnRound(Rest(2, 1, 0, 0), 0, 1)[1..]
  }

  const WAY: seq<Step> := SPAWN_TURN + TURN + SPAWN_TURN

  lemma WayIsRun()
    ensures IsRun(WayThere(), WAY) && WayThere()[0] == Start(0, true, map[]) && WayThere()[9] == Rest(3, 0, 1, 2)
  {
    hide PickNext, Enabled, Next, IsRun;
    FirstPick();
    SpawnTurnIsRun(Start(0, true, map[]), 0, 0);
    PickByPreference(2, 0, 0, 1);
    TurnIsRun(Rest(2, 0, 0, 1), 1, 0);
    PickByCursor(2, 1, 0);
    SpawnTurnIsRun(Rest(2, 1, 0, 0), 0, 1);
    var a, b := SpawnRound(Start(0, true, map[]), 0, 0), Round(Rest(2, 0, 0, 1), 1, 0);
    var c := SpawnRound(Rest(2, 1, 0, 0), 0, 1);
    assert a[3] == b[0] && b[3] == c[0] && |a| == |b| == 4;
    RunsCompose(a, SPAWN_TURN, b, TURN);
    assert (a + b[1..])[6] == c[0];
    RunsCompose(a + b[1..], SPAWN_TURN + TURN, c, SPAWN_TURN);
  }

  lemma PassedOver()
    ensures ThreeTurns()[0] == Rest(3, 0, 1, 2) && NeverRuns(ThreeTurns(), 0) && Queued(ThreeTurns()[0], 0)
  {
  }

  lemma ThreePicks()
    ensures Spawns(TURN + TURN + TURN) == 0 && Picks(TURN + TURN + TURN) == 3
  {
    CountTurn([]);
    assert [] + TURN == TURN;
    CountTurn(TURN);
    CountTurn(TURN + TURN);
  }

  /** The extra turn is real, in a run from the start of the scheduler. After nine steps
      there are three threads, a preference for thread 2 is pending and thread 0 is
      queued, two places behind the cursor. The next three calls of pick_next, with no
      thread created, all pass it over: one for the preference, two for the distance. */
  lemma PendingPreferenceCostsATurn()
    ensures var states, steps := WayThere() + ThreeTurns()[1..], WAY + (TURN + TURN + TURN);
      IsRun(states, steps) && states[0] == Start(0, true, map[]) && states[9..] == ThreeTurns()
    ensures NeverRuns(ThreeTurns(), 0) && Queued(ThreeTurns()[0], 0)
    ensures Pending(ThreeTurns()[0]) == 1 && Distance(ThreeTurns()[0], 0) == 2 && ThreeTurns()[0].nextTid == 3
    ensures Spawns(TURN + TURN + TURN) == 0 && Picks(TURN + TURN + TURN) == 3
  {
    ThreeTurnsIsRun();
    WayIsRun();
    PassedOver();
    ThreePicks();
    hide ThreeTurns, WayThere, Next, Enabled, NeverRuns, Queued, Picks, Spawns;
    var way, turns := WayThere(), ThreeTurns();
    RunsCompose(way, WAY, turns, TURN + TURN + TURN);
    assert |way| == 10 && (way + turns[1..])[9..] == turns;
  }

  // ----- the bound is met for every number of threads -----

  lemma {:induction false} CountsAdd(a: seq<Step>, b: seq<Step>)
    ensures Picks(a + b) == Picks(a) + Picks(b) && Spawns(a + b) == Spawns(a) + Spawns(b)
    decreases |b|
  {
    if b == [] {
      assert a + b == a;
    } else {
      var n := |b| - 1;
      assert (a + b)[..|a + b| - 1] == a + b[..n];
      CountsAdd(a, b[..n]);
    }
  }

  lemma TurnCounts()
    ensures Picks(TURN) == 1 && Spawns(TURN) == 0
  {
    CountTurn([]);
    assert [] + TURN == TURN;
  }

  // A turn of another thread, in front of a run that passes t over.
  lemma TurnBefore(before: Sched, u: Tid, rr: nat, t: Tid, states: seq<Sched>, steps: seq<Step>)
    returns (states': seq<Sched>, steps': seq<Step>)
    requires IsRun(Round(before, u, rr), TURN) && !before.inSlice && u != t
    requires IsRun(states, steps) && states[0] == Rest(before.nextTid, u, rr, 0) && NeverRuns(states, t)
    ensures IsRun(states', steps') && states'[0] == before && NeverRuns(states', t)
    ensures Picks(steps') == Picks(steps) + 1 && Spawns(steps') == Spawns(steps)
  {
    hide IsRun, Picks, Spawns;
    var round := Round(before, u, rr);
    RunLength(states, steps);
    assert round[3] == states[0] && |round| == 4;
    RunsCompose(round, TURN, states, steps);
    states', steps' := round + states[1..], TURN + steps;
    CountsAdd(TURN, steps);
    TurnCounts();
    forall i | 0 <= i < |states'| ensures !RunsNow(states'[i], t) {
      if i >= 4 { assert states'[i] == states[i - 3]; }
    }
  }

  lemma RunLength(states: seq<Sched>, steps: seq<Step>)
    requires IsRun(states, steps)
    ensures |states| == |steps| + 1
  {
  }

  /** With all threads runnable, the cursor passes over every thread between it and t. */
  lemma {:induction false} CursorTurns(n: nat, cur: Tid, rr: nat, t: Tid) returns (states: seq<Sched>, steps: seq<Step>)
    requires cur < n && rr < n && t < n
    ensures IsRun(states, steps) && states[0] == Rest(n, cur, rr, 0) && NeverRuns(states, t)
    ensures Picks(steps) == Distance(Rest(n, cur, rr, 0), t) && Spawns(steps) == 0
    decreases Distance(Rest(n, cur, rr, 0), t)
  {
    hide PickNext, Enabled, Next;
    if rr == t {
      states, steps := [Rest(n, cur, rr, 0)], [];
    } else {
      PickByCursor(n, cur, rr);
      var next := Wrap(rr + 1, n);
      TurnIsRun(Rest(n, cur, rr, 0), rr, next);
      CursorMoves(Rest(n, cur, rr, 0), t, 0);
      states, steps := CursorTurns(n, rr, next, t);
      states, steps := TurnBefore(Rest(n, cur, rr, 0), rr, next, t, states, steps);
    }
  }

  /** The sharp bound is met for every number of threads, cursor position, preferred thread
      p and other thread t: some run passes t over as often as the bound allows. */
  lemma BoundIsMet(n: nat, cur: Tid, rr: nat, p: Tid, t: Tid) returns (states: seq<Sched>, steps: seq<Step>)
    requires cur < n && rr < n && 0 < p < n && t < n && t != p
    ensures IsRun(states, steps) && states[0] == Rest(n, cur, rr, p) && Queued(states[0], t) && NeverRuns(states, t)
    ensures Picks(steps) == Distance(states[0], t) + Pending(states[0]) && Spawns(steps) == 0
  {
    hide PickNext, Enabled, Next;
    PickByPreference(n, cur, rr, p);
    TurnIsRun(Rest(n, cur, rr, p), p, rr);
    states, steps := CursorTurns(n, p, rr, t);
    states, steps := TurnBefore(Rest(n, cur, rr, p), p, rr, t, states, steps);
  }
}
