// Recovered bodies run: in the interpreter, from the rebuilt file.

module DevirtRun {
  import opened Common
  import opened DexModel
  import opened DexRebuild
  import opened DexReadBack
  import opened DalvikIsa
  import opened DalvikAsm
  import opened DalvikVm
  import opened DalvikList
  import opened DalvikSim
  import opened DexCode
  import opened DevirtSafety
  import DevirtModel

  type Rows = seq<DevirtModel.Record>
  type Families = DevirtModel.Families

  /** Every branch of a program is near enough to its target. */
  ghost predicate DistancesFit(p: Program) {
    forall i :: 0 <= i < |p| && IsBranch(p[i]) ==> BranchFits(p, i)
  }

  /** What the interpreter runs: the recovered body with its pool indices cut. */
  function Code16(rows: Rows, fams: Families): (p: Program)
    ensures |p| == |DevirtModel.Kept(rows)|
  {
    NormAll(DevirtModel.Body(rows, fams))
  }

  lemma BranchKept(p: Program, i: nat)
    requires i < |p|
    ensures IsBranch(Norm(p[i])) <==> IsBranch(p[i])
    ensures IsBranch(p[i]) && BranchFits(p, i) ==> BranchFits(NormAll(p), i)
  {
    hide FormatOf, Units, Offset, Reach;
    NormOffset(p, i);
    if IsBranch(p[i]) {
      assert Norm(p[i]) == p[i];
      if 0 <= Target(p[i]) < |p| { NormOffset(p, Target(p[i])); }
    }
  }

  lemma Code16Encodable(rows: Rows, fams: Families)
    requires DistancesFit(DevirtModel.Body(rows, fams))
    ensures Encodable(Code16(rows, fams))
  {
    hide OperandsFit, IsBranch, BranchFits, Meaning, Norm, DevirtModel.Body, DevirtModel.Kept, FrameSafe;
    var p := DevirtModel.Body(rows, fams);
    forall i | 0 <= i < |p| ensures OperandsFit(Norm(p[i])) && (IsBranch(Norm(p[i])) ==> BranchFits(NormAll(p), i)) {
      RecoveredOk(rows, fams, i);
      BranchKept(p, i);
    }
  }

  /** A body of at most 43 instructions has no far branch; the first length at which one
      is possible is 44. */
  lemma ShortBodiesFit(rows: Rows, fams: Families)
    requires |DevirtModel.Kept(rows)| <= 43
    ensures DistancesFit(DevirtModel.Body(rows, fams))
  {
    hide FormatOf, Units, DevirtModel.Body, DevirtModel.Kept, FrameSafe, OperandsFit, Meaning;
    var p := DevirtModel.Body(rows, fams);
    forall i | 0 <= i < |p| && IsBranch(p[i]) ensures BranchFits(p, i) {
      RecoveredOk(rows, fams, i);
      assert Offset(p, i) <= 126 && Offset(p, Target(p[i])) <= 126;
    }
  }

  // ----- no fault -----

  lemma SafeStep(env: Env, rows: Rows, fams: Families, s: Place)
    requires |s.core.regs| >= 16
    ensures var e := StepList(env, Code16(rows, fams), s);
      e != Fails && (e.Goes? ==> |e.p.core.regs| >= 16)
  {
    hide Apply, Meaning, IsBranch, Target, OperandsFit, FrameSafe, DevirtModel.Body, DevirtModel.Kept, Norm;
    var body := DevirtModel.Body(rows, fams);
    if s.at < |body| {
      var ins := Norm(body[s.at]);
      RecoveredOk(rows, fams, s.at);
      SafeApplies(env, s.core, Meaning(ins));
      if Apply(env, s.core, Meaning(ins)).Next? { FrameSize(env, s.core, Meaning(ins)); }
      NormTarget(body[s.at]);
    }
  }

  lemma NormTarget(ins: Instr)
    ensures IsBranch(Norm(ins)) <==> IsBranch(ins)
    ensures IsBranch(ins) ==> Norm(ins) == ins
  {
    hide FormatOf;
  }

  lemma {:induction false} SafeSteps(env: Env, rows: Rows, fams: Families, s: Place, n: nat)
    requires |s.core.regs| >= 16
    ensures StepsList(env, Code16(rows, fams), s, n) != Fails
    decreases n
  {
    hide StepList, Code16;
    if n > 0 {
      SafeStep(env, rows, fams, s);
      match StepList(env, Code16(rows, fams), s)
      case Goes(s') => SafeSteps(env, rows, fams, s', n - 1);
      case _ =>
    }
  }

  lemma SameCode(d: Image, code: Code, rows: Rows, fams: Families)
    requires Loaded(d, code, DevirtModel.Body(rows, fams))
    ensures Loaded(d, code, Code16(rows, fams))
  {
    hide AssembleTo, NormAll, Bytes, DevirtModel.Body, DevirtModel.Kept;
    var p := DevirtModel.Body(rows, fams);
    NormAssembles(p, |p|);
  }

  lemma EnterFrame(code: Code, args: seq<u64>, log: seq<Call>)
    requires code.ins <= code.registers && code.registers >= 16
    ensures var m := Enter(code, args, log);
      m.Some? && m.value.pc == 0 && |m.value.core.regs| == code.registers
  {
  }

  ghost predicate AtInstruction(p: Program, pc: nat) {
    exists i :: 0 <= i <= |p| && pc == Offset(p, i)
  }

  /** Frame safety. For every trace and family table whose branch distances fit, a frame
      of at least sixteen registers is enough: from any start the interpreter never
      touches a register outside it, for any host, arithmetic and number of steps, and
      its program counter is always the start of an instruction or the end. */
  lemma FrameIsEnough(env: Env, d: Image, code: Code, rows: Rows, fams: Families, c: Core, n: nat)
    requires Loaded(d, code, DevirtModel.Body(rows, fams)) && DistancesFit(DevirtModel.Body(rows, fams))
    requires |c.regs| >= 16
    ensures var o := Steps(env, d, code, Machine(0, c), n);
      && o != Faulted
      && SameEnd(Code16(rows, fams), StepsList(env, Code16(rows, fams), Place(0, c), n), o)
      && (o.Running? ==> AtInstruction(DevirtModel.Body(rows, fams), o.m.pc))
  {
    hide DistancesFit, Encodable, Loaded, DevirtModel.Body, DevirtModel.Kept, Steps, StepsList, Offset;
    var p, q := DevirtModel.Body(rows, fams), Code16(rows, fams);
    SameCode(d, code, rows, fams);
    Code16Encodable(rows, fams);
    assert Same(q, Place(0, c), Machine(0, c)) by { StartsAtZero(q); }
    AssembledRuns(env, d, code, q, Place(0, c), Machine(0, c), n);
    SafeSteps(env, rows, fams, Place(0, c), n);
    LoadedRuns(d, code, p);
    var e := StepsList(env, q, Place(0, c), n);
    if e.Goes? { NormOffset(p, e.p.at); }
  }

  lemma StartsAtZero(p: Program)
    ensures Offset(p, 0) == 0
  {
  }

  // ----- code items -----

  /** The code item of a recovered method. */
  function RecoveredItem(rows: Rows, fams: Families, ins: u16): seq<byte> {
    Item(if ins < 16 then 16 else ins, ins, 5, Assemble(DevirtModel.Body(rows, fams)))
  }

  /** What a call answers, given where the list machine is when the steps run out. */
  function Answer(e: Ends): Outcome {
    match e
    case Goes(s) => Returned(s.core.result, s.core.log)
    case Returns(v, log) => Returned(v, log)
    case Fails => Faulted
  }

  lemma AnswerAlike(p: Program, e: Ends, o: Outcome)
    requires SameEnd(p, e, o)
    ensures Answer(e) == if o.Running? then Returned(o.m.core.result, o.m.core.log) else o
  {
  }

  /** A code item at an offset: it is valid, and called with these arguments it does and
      answers what the program does, without a fault. */
  ghost predicate ItemDoes(env: Env, d: Image, off: u32, p: Program, args: seq<u64>, log: seq<Call>, n: nat) {
    var code := CodeAt(d, off);
    && code.valid && Enter(code, args, log).Some?
    && var m := Enter(code, args, log).value;
    && |m.core.regs| >= 16
    && Steps(env, d, code, m, n) != Faulted
    && SameEnd(p, StepsList(env, p, Place(0, m.core), n), Steps(env, d, code, m, n))
    && CallMethod(env, d, code, args, log) != Faulted
    && CallMethod(env, d, code, args, log) == Answer(StepsList(env, p, Place(0, m.core), MaxSteps()))
  }

  lemma ItemRuns(env: Env, d: Image, off: u32, rows: Rows, fams: Families, ins: u16,
                 args: seq<u64>, log: seq<Call>, n: nat)
    requires 0 < off && At(d, off, RecoveredItem(rows, fams, ins)) && |d| < TWO32
    requires DistancesFit(DevirtModel.Body(rows, fams))
    ensures ItemDoes(env, d, off, Code16(rows, fams), args, log, n)
  {
    hide DistancesFit, DevirtModel.Body, DevirtModel.Kept, Steps, StepsList, Item, Assemble, At, Enter, CodeAt, Bytes,
      Code16, SameEnd, MaxSteps, Answer;
    var p, regs: u16 := DevirtModel.Body(rows, fams), if ins < 16 then 16 else ins;
    ItemReadsBack(d, off, regs, ins, 5, Assemble(p));
    var code := CodeAt(d, off);
    assert Loaded(d, code, p);
    EnterFrame(code, args, log);
    var m := Enter(code, args, log).value;
    FrameIsEnough(env, d, code, rows, fams, m.core, n);
    FrameIsEnough(env, d, code, rows, fams, m.core, MaxSteps());
    assert m == Machine(0, m.core);
    var q := Code16(rows, fams);
    AnswerAlike(q, StepsList(env, q, Place(0, m.core), MaxSteps()), Steps(env, d, code, m, MaxSteps()));
  }

  function AllMethods(c: Class): seq<Method> { c.direct + c.virt }

  lemma RelinkedMethod(c: Class, c': Class, offs: map<nat, u32>, j: nat)
    requires IsRelinked(c, c', offs) && j < |AllMethods(c)|
    ensures j < |AllMethods(c')| && AllMethods(c')[j] == Relink(AllMethods(c)[j], offs)
  {
  }

  /** From trace to execution. Take any well-formed DEX, any set of recovered code items
      containing, for a native method, the body recovered from a trace whose branch
      distances fit. In the rebuilt file the reader finds that method in its class, no
      longer native, with a code offset at which it finds a valid code item. Called with
      any arguments, the interpreter does on it, step by step and without ever leaving
      the frame, what the recovered instruction list does, and answers the same. */
  lemma RebuiltMethodRuns(d: Image, codes: Codes, h: Hashes, i: nat, j: nat, rows: Rows, fams: Families, ins: u16,
                          env: Env, args: seq<u64>, log: seq<Call>, n: nat)
    requires HashesOk(h) && WellFormed(d) && |Build(d, codes, h)| < TWO32
    requires i < DefsSize(d) && j < |AllMethods(ReadClass(d, i))|
    requires var was := AllMethods(ReadClass(d, i))[j];
      IsNative(was.access) && was.idx in codes && codes[was.idx] == RecoveredItem(rows, fams, ins)
    requires DistancesFit(DevirtModel.Body(rows, fams))
    ensures var e, was := Build(d, codes, h), AllMethods(ReadClass(d, i))[j];
      && j < |AllMethods(ReadClass(e, i))|
      && var now := AllMethods(ReadClass(e, i))[j];
      && now.idx == was.idx && now.access == was.access - ACC_NATIVE
      && ItemDoes(env, e, now.codeOff, Code16(rows, fams), args, log, n)
  {
    hide WellFormed, Build, ReadClass, IsRelinked, AllMethods, Offsets, RecoveredItem, DistancesFit, DevirtModel.Body,
      DevirtModel.Kept, ItemDoes, At, Code16;
    var e, was := Build(d, codes, h), AllMethods(ReadClass(d, i))[j];
    ReadBack(d, codes, h);
    RelinkedMethod(ReadClass(d, i), ReadClass(e, i), Offsets(d, codes), j);
    CodeInPlace(d, codes, h, was.idx);
    var off := Offsets(d, codes)[was.idx];
    HasHeader(d);
    ItemRuns(env, e, off, rows, fams, ins, args, log, n);
  }

  lemma HasHeader(d: Image)
    requires WellFormed(d)
    ensures |d| >= HEADER
  {
  }

  // ----- methods without a trace -----

  /** The stub for a method nothing was recorded of, by return descriptor. */
  function Stub(ret: string): seq<u16> {
    if ret == "V" then [0x000e]
    else if ret == "J" || ret == "D" then [0x0016, 0x0000, 0x0010]
    else if ret != "" && (ret[0] == 'L' || ret[0] == '[') then [0x0012, 0x0011]
    else [0x0012, 0x000f]
  }

  function StubRegs(ret: string, ins: u16): u16 {
    var least := if ret == "J" || ret == "D" then 2 else 1;
    if ins < least then least else ins
  }

  /** A stub as a program. */
  function StubProgram(ret: string): Program {
    if ret == "V" then [DevirtModel.Ins(0x0e, [])]
    else if ret == "J" || ret == "D" then [DevirtModel.Ins(0x16, [0, 0]), DevirtModel.Ins(0x10, [0])]
    else if ret != "" && (ret[0] == 'L' || ret[0] == '[') then
      [DevirtModel.Ins(0x12, [0, 0]), DevirtModel.Ins(0x11, [0])]
    else [DevirtModel.Ins(0x12, [0, 0]), DevirtModel.Ins(0x0f, [0])]
  }

  lemma StubFormats()
    ensures FormatOf(0x0e) == F10x && FormatOf(0x0f) == FormatOf(0x10) == FormatOf(0x11) == F11x
    ensures FormatOf(0x12) == F11n && FormatOf(0x16) == F21s
  {
  }

  lemma {:induction false} OneInstruction(p: Program, i: nat)
    requires i < |p| && !IsBranch(p[i])
    ensures AssembleTo(p, i + 1) == AssembleTo(p, i) + Encode(p[i], Offset(p, i))
  {
    hide FormatOf, Encode;
    Resolved(p, p[i]);
  }

  lemma StubAssembles(ret: string)
    ensures Assemble(StubProgram(ret)) == Stub(ret) && Encodable(StubProgram(ret))
  {
    hide FormatOf, AssembleTo;
    StubFormats();
    var p := StubProgram(ret);
    OneInstruction(p, 0);
    assert AssembleTo(p, 0) == [] by { NothingYet(p); }
    if |p| == 2 { OneInstruction(p, 1); }
  }

  lemma NothingYet(p: Program)
    ensures AssembleTo(p, 0) == []
  {
  }

  lemma StubList(env: Env, ret: string, c: Core, n: nat)
    requires n >= 2 && |c.regs| >= 1
    ensures StepsList(env, StubProgram(ret), Place(0, c), n) == Returns(0, c.log)
  {
    hide FormatOf;
    StubFormats();
    var p := StubProgram(ret);
    if |p| == 2 {
      var c' := c.(regs := c.regs[0 := 0]);
      assert StepList(env, p, Place(0, c)) == Goes(Place(1, c'));
      assert StepList(env, p, Place(1, c')) == Returns(0, c.log);
      assert StepsList(env, p, Place(0, c), n) == StepsList(env, p, Place(1, c'), n - 1);
    }
  }

  /** A method without a trace gets a body that returns zero, whatever it is called with. */
  lemma StubReturnsZero(env: Env, d: Image, off: u32, ret: string, ins: u16, args: seq<u64>, log: seq<Call>)
    requires 0 < off && At(d, off, Item(StubRegs(ret, ins), ins, 5, Stub(ret))) && |d| < TWO32
    ensures CallMethod(env, d, CodeAt(d, off), args, log) == Returned(0, log)
  {
    hide StubProgram, Stub, At, Item, CodeAt, Assemble, Bytes, Steps, StepsList, Encodable, MaxSteps;
    ItemReadsBack(d, off, StubRegs(ret, ins), ins, 5, Stub(ret));
    var p, code := StubProgram(ret), CodeAt(d, off);
    StubAssembles(ret);
    assert Loaded(d, code, p);
    var m := Enter(code, args, log).value;
    StartsAtZero(p);
    EnoughSteps();
    AssembledRuns(env, d, code, p, Place(0, m.core), m, MaxSteps());
    StubList(env, ret, m.core, MaxSteps());
  }

  lemma EnoughSteps()
    ensures MaxSteps() >= 2
  {
  }
}
