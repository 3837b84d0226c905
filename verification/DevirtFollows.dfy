// From the trace to the call: a rebuilt method answers what its trace, read as a program of
// records, answers.

module DevirtFollows {
  import opened Common
  import opened DexModel
  import opened DexRebuild
  import opened DexReadBack
  import opened DalvikIsa
  import opened DalvikVm
  import opened DalvikList
  import opened DexCode
  import opened DevirtSafety
  import opened DevirtRun
  import DalvikAsm
  import DalvikBytes
  import M = DevirtModel
  import T = DevirtTrace

  // ----- what is kept of a trace -----

  /** Only records marked 0xffff are dropped, and the order stays. */
  lemma {:induction false} KeptOfParts(a: Rows, b: Rows)
    ensures M.Kept(a + b) == M.Kept(a) + M.Kept(b)
  {
    if a == [] {
      assert a + b == b;
    } else {
      assert (a + b)[1..] == a[1..] + b;
      KeptOfParts(a[1..], b);
    }
  }

  lemma KeptOfOne(s: M.Record)
    ensures M.Kept([s]) == if s.op == 0xffff then [] else [s]
  {
    assert M.Kept([s][1..]) == [];
  }

  // ----- the frame of a call -----

  /** At least sixteen registers; the arguments are in the last ones. */
  function Frame(ins: u16, args: seq<u64>): (regs: seq<u64>)
    ensures |regs| >= 16
  {
    var n := if ins < 16 then 16 else ins;
    seq(n, r requires 0 <= r < n =>
      var i := r - (n - ins);
      if 0 <= i < |args| then args[i] else 0)
  }

  lemma FrameArrives(code: Code, ins: u16, args: seq<u64>, log: seq<Call>)
    requires code.ins == ins && code.registers == if ins < 16 then 16 else ins
    ensures Enter(code, args, log) == Some(Machine(0, Core(Frame(ins, args), 0, log)))
  {
    hide Enter;
    DalvikBytes.ArgumentsArrive(code, args, log);
    assert Enter(code, args, log).value.core.regs == Frame(ins, args);
  }

  /** What a call of the trace answers. */
  ghost function TraceAnswers(env: Env, rows: Rows, fams: Families, ins: u16, args: seq<u64>, log: seq<Call>): Outcome {
    Answer(T.DoesFor(env, M.Kept(rows), fams, Place(0, Core(Frame(ins, args), 0, log)), MaxSteps()))
  }

  lemma CallFollowsTrace(env: Env, d: Image, off: u32, rows: Rows, fams: Families, ins: u16,
                         args: seq<u64>, log: seq<Call>)
    requires 0 < off && At(d, off, RecoveredItem(rows, fams, ins)) && |d| < TWO32
    requires DistancesFit(M.Body(rows, fams))
    ensures Runnable(d, CodeAt(d, off))
    ensures CallMethod(env, d, CodeAt(d, off), args, log) == TraceAnswers(env, rows, fams, ins, args, log)
  {
    hide DistancesFit, M.Body, M.Kept, StepsList, T.DoesFor, Item, At, Enter, CodeAt, CallMethod, NormAll, Answer,
      MaxSteps, Frame, Steps;
    var regs: u16 := if ins < 16 then 16 else ins;
    ItemRuns(env, d, off, rows, fams, ins, args, log, 0);
    ItemReadsBack(d, off, regs, ins, 5, DalvikAsm.Assemble(M.Body(rows, fams)));
    FrameArrives(CodeAt(d, off), ins, args, log);
    T.BodyFollowsTrace(env, rows, fams, Place(0, Core(Frame(ins, args), 0, log)), MaxSteps());
  }

  /** From trace to answer. In the rebuilt file a native method whose trace was recovered is
      found again, no longer native; calling it answers, for every host, arithmetic and
      arguments, what running the records of the trace one by one answers. */
  lemma RebuiltFollowsTrace(d: Image, codes: Codes, h: Hashes, i: nat, j: nat, rows: Rows, fams: Families, ins: u16,
                            env: Env, args: seq<u64>, log: seq<Call>)
    requires HashesOk(h) && WellFormed(d) && |Build(d, codes, h)| < TWO32
    requires i < DefsSize(d) && j < |AllMethods(ReadClass(d, i))|
    requires var was := AllMethods(ReadClass(d, i))[j];
      IsNative(was.access) && was.idx in codes && codes[was.idx] == RecoveredItem(rows, fams, ins)
    requires DistancesFit(M.Body(rows, fams))
    ensures var e, was := Build(d, codes, h), AllMethods(ReadClass(d, i))[j];
      && j < |AllMethods(ReadClass(e, i))|
      && var now := AllMethods(ReadClass(e, i))[j];
      && now.idx == was.idx && now.access == was.access - 0x100
      && Runnable(e, CodeAt(e, now.codeOff))
      && CallMethod(env, e, CodeAt(e, now.codeOff), args, log) == TraceAnswers(env, rows, fams, ins, args, log)
  {
    hide WellFormed, Build, ReadClass, IsRelinked, AllMethods, Offsets, RecoveredItem, DistancesFit, M.Body, M.Kept, At,
      CodeAt, CallMethod, TraceAnswers;
    var e, was := Build(d, codes, h), AllMethods(ReadClass(d, i))[j];
    ReadBack(d, codes, h);
    RelinkedMethod(ReadClass(d, i), ReadClass(e, i), Offsets(d, codes), j);
    CodeInPlace(d, codes, h, was.idx);
    HasHeader(d);
    CallFollowsTrace(env, e, Offsets(d, codes)[was.idx], rows, fams, ins, args, log);
  }
}
