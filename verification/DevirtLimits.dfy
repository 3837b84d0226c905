// Traces at the limits of the encoding: pool indices over sixteen bits and branches
// over more than a signed byte.

module DevirtLimits {
  import opened Common
  import opened DexModel
  import opened DalvikIsa
  import opened DalvikAsm
  import opened DalvikVm
  import opened DalvikList
  import opened DalvikSim
  import opened DevirtSafety
  import opened DevirtRun
  import M = DevirtModel

  // ----- pool indices -----

  /** The emitted instructions that pass a pool index to the host. */
  predicate UsesPool(ins: Instr) { ins.op == 0x6e || ins.op == 0x54 || ins.op == 0x1a }

  function PoolOf(ins: Instr): int { Operand(ins, if ins.op == 0x54 then 2 else 1) }

  lemma PoolFormats(ins: Instr)
    requires UsesPool(ins)
    ensures Fmt(ins) == if ins.op == 0x6e then F35c else if ins.op == 0x54 then F22c else F21c
    ensures !IsBranch(ins) && Fmt(Norm(ins)) == Fmt(ins)
  {
  }

  lemma CutMeaningIff(ins: Instr)
    requires UsesPool(ins)
    ensures Meaning(Norm(ins)) == Meaning(ins) <==> IsHalf(PoolOf(ins))
  {
    hide FormatOf;
    PoolFormats(ins);
  }

  /** What the interpreter decodes is what the instruction means if and only if the pool
      index has sixteen bits. */
  lemma PoolReadBackIff(ins: Instr, cur: int, f: Fields)
    requires UsesPool(ins) && OperandsFit(Norm(ins)) && Matches(f, Encode(ins, cur))
    ensures Decode(f).effect == Meaning(ins) <==> IsHalf(PoolOf(ins))
  {
    hide Encode, Decode, Meaning, OperandsFit, FormatOf, Matches, Norm;
    PoolFormats(ins);
    NormEncodes(ins, cur);
    Understood(Norm(ins), cur, f);
    CutMeaningIff(ins);
    NormNoBranch(ins);
  }

  lemma NormNoBranch(ins: Instr)
    requires UsesPool(ins)
    ensures !IsBranch(Norm(ins))
  {
    PoolFormats(ins);
  }

  lemma RefIsRef()
    ensures M.IsRef("ref-op") && M.IsRef("invoke") && M.IsRef("const/ref")
  {
  }

  lemma ConstUsesNoPool(r: int, lit: int)
    ensures !UsesPool(M.ConstInstr(r, lit))
  {
  }

  /** Only reference families yield such instructions, with the pool index of the record. */
  lemma PoolFromFamily(d: M.VmInstr)
    requires UsesPool(M.ToDalvik(d)) && (M.IsRef(d.family) ==> d.pool.Some?)
    ensures M.IsRef(d.family) && PoolOf(M.ToDalvik(d)) == d.pool.value
  {
    hide M.Base, M.Contains, M.AluOf, M.ConstInstr, M.IsRef;
    RefIsRef();
    if |d.vregs| >= 1 { ConstUsesNoPool(d.vregs[0], M.OrZero(d.lit)); }
  }

  lemma DecodedPool(s: M.Record, fams: Families, index: map<int, nat>, i: nat, n: nat)
    ensures var d := M.Sanitise(M.Decode(s, fams, index), i, n);
      d.family != "nop" && M.IsRef(d.family) ==> d.pool == Some(s.raw / 256)
  {
    hide M.Contains;
  }

  lemma NopUsesNoPool(d: M.VmInstr)
    requires d.family == "nop"
    ensures !UsesPool(M.ToDalvik(d))
  {
    hide M.Contains, M.Base;
    if M.AluInstr("nop", d.vregs).Some? { NopIsNoAlu(d.vregs); }
  }

  lemma NopIsNoAlu(v: seq<int>)
    ensures M.AluInstr("nop", v) == None
  {
    assert "nop"[1..] == "op" && "op"[1..] == "p" && "p"[1..] == "";
    assert M.FindSlash("") == 0 && M.FindSlash("p") == 1 && M.FindSlash("op") == 2;
    assert M.Base("nop") == "nop";
  }

  lemma BodyPool(rows: Rows, fams: Families, i: nat)
    requires i < |M.Kept(rows)| && UsesPool(M.Body(rows, fams)[i])
    ensures PoolOf(M.Body(rows, fams)[i]) == M.Kept(rows)[i].raw / 256
  {
    hide M.Decode, M.Sanitise, M.ToDalvik, M.Kept, UsesPool, M.IsRef, PoolOf;
    var kept := M.Kept(rows);
    var index := M.IndexTo(kept, |kept|);
    var d := M.VmCode(rows, fams)[i];
    DecodedPool(kept[i], fams, index, i, |kept|);
    if d.family == "nop" { NopUsesNoPool(d); } else { PoolFromFamily(d); }
  }

  /** For every trace: an instruction that uses the pool is understood as recovered if and
      only if the index in its record, the upper 24 bits, is below 65536. */
  lemma PoolSurvivesIff(d: Image, base: nat, rows: Rows, fams: Families, i: nat)
    requires At(d, base, Bytes(Assemble(M.Body(rows, fams))))
    requires i < |M.Kept(rows)| && UsesPool(M.Body(rows, fams)[i])
    ensures base + 2 * Offset(M.Body(rows, fams), i) < |d|
    ensures Decode(Fetch(d, base + 2 * Offset(M.Body(rows, fams), i))).effect == Meaning(M.Body(rows, fams)[i]) <==>
      M.Kept(rows)[i].raw / 256 < 65536
  {
    hide Bytes, Assemble, Decode, Fetch, Encode, Meaning, FormatOf, Matches, OperandsFit, At, Resolve, Offset,
      M.Body, M.Kept, UsesPool, PoolOf, Norm, FrameSafe;
    var p := M.Body(rows, fams);
    RecoveredOk(rows, fams, i);
    BodyPool(rows, fams, i);
    Fetched(d, base, p, i);
    PoolFormats(p[i]);
    Resolved(p, p[i]);
    PoolReadBackIff(p[i], Offset(p, i), Fetch(d, base + 2 * Offset(p, i)));
  }

  // A trace of one call through pool entry 65536.
  const BIG_POOL: Rows := [M.Record(0, 1, 0x100_0000, None)]
  const CALLS: Families := map[1 := "invoke", 2 := "nop"]

  /** The instruction of an "invoke" record that names register 0. */
  function CallThrough(pool: int): Instr { Instr(0x6e, [0, pool], [0]) }

  lemma InvokeDecodes(s: M.Record, index: map<int, nat>, i: nat, n: nat)
    requires s.op == 1 && s.raw / 256 % 16 == 0 && s.target == None
    requires i + 1 < n || !M.IsIf("invoke")
    ensures M.ToDalvik(M.Sanitise(M.Decode(s, CALLS, index), i, n)) == CallThrough(s.raw / 256)
  {
    hide M.Contains, M.Base, M.AluOf, M.IsIf;
    RefIsRef();
    var d := M.Sanitise(M.Decode(s, CALLS, index), i, n);
    assert d.family == "invoke" && d.vregs == [0] && d.pool == Some(s.raw / 256);
  }

  lemma InvokeIsNoTest()
    ensures !M.IsIf("invoke")
  {
    var s := "invoke";
    assert s[1..] == "nvoke" && s[1..][1..] == "voke" && "voke"[1..] == "oke" && "oke"[1..] == "ke";
    NotHere("ke", "if-");
    NotHere("oke", "if-");
    NotHere("voke", "if-");
    NotHere("nvoke", "if-");
    assert s[..3] == "inv" && "if-"[1] != s[1];
  }

  lemma BigPoolBody()
    ensures M.Body(BIG_POOL, CALLS) == [CallThrough(65536)]
  {
    hide M.Decode, M.Sanitise, M.ToDalvik, M.IsIf;
    var kept := M.Kept(BIG_POOL);
    assert kept == BIG_POOL;
    InvokeIsNoTest();
    InvokeDecodes(kept[0], M.IndexTo(kept, 1), 0, 1);
  }

  lemma CallDoes(env: Env, c: Core, pool: int)
    requires |c.regs| >= 16
    ensures var call := Call(Invoke(0), pool, [c.regs[0]]);
      Apply(env, c, Meaning(CallThrough(pool))) ==
        Next(c.(log := c.log + [call], result := env.host(c.log, call)), false)
  {
    assert Fmt(CallThrough(pool)) == F35c;
    var regs := [0];
    assert forall r :: r in regs ==> HasReg(c, r);
    assert Values(c, regs) == [c.regs[0]];
  }

  lemma CutCall()
    ensures Norm(CallThrough(65536)) == CallThrough(0)
  {
    PoolFormats(CallThrough(65536));
  }

  /** An instance: the recovered list asks the host for method 65536, the interpreter on
      its assembled code for method 0. */
  lemma BigPoolAsksForZero(env: Env, d: Image, code: Code, c: Core)
    requires Loaded(d, code, M.Body(BIG_POOL, CALLS)) && |c.regs| >= 16
    ensures var e := StepsList(env, M.Body(BIG_POOL, CALLS), Place(0, c), 1);
      e.Goes? && e.p.core.log == c.log + [Call(Invoke(0), 65536, [c.regs[0]])]
    ensures code.valid && Runnable(d, code)
    ensures var o := Steps(env, d, code, Machine(0, c), 1);
      o.Running? && o.m.core.log == c.log + [Call(Invoke(0), 0, [c.regs[0]])]
  {
    hide Loaded, Apply, Meaning, Steps, FormatOf, DistancesFit, M.Body, M.Kept, Offset;
    LoadedRuns(d, code, M.Body(BIG_POOL, CALLS));
    BigPoolBody();
    ShortBodiesFit(BIG_POOL, CALLS) by { assert |M.Body(BIG_POOL, CALLS)| == 1; }
    FrameIsEnough(env, d, code, BIG_POOL, CALLS, c, 1);
    CallDoes(env, c, 65536);
    CutCall();
    assert Code16(BIG_POOL, CALLS) == [CallThrough(0)];
    CallDoes(env, c, 0);
    assert StepList(env, [CallThrough(0)], Place(0, c)).Goes?;
  }

  // ----- far branches -----

  /** 43 calls and a jump back to the first: 44 records, the jump over 129 units. */
  function FarRows(): Rows {
    seq(44, i => if i < 43 then M.Record(i, 1, 0, None) else M.Record(i, 2, 0, Some(0)))
  }

  lemma {:induction false} NothingSkipped(rows: Rows)
    requires forall i :: 0 <= i < |rows| ==> rows[i].op != M.SKIPPED
    ensures M.Kept(rows) == rows
  {
    if rows != [] {
      NothingSkipped(rows[1..]);
      assert rows == [rows[0]] + rows[1..];
    }
  }

  lemma {:induction false} FirstRecord(kept: Rows, n: nat)
    requires 0 < n <= |kept| && forall i :: 0 <= i < |kept| ==> kept[i].p == i
    ensures 0 in M.IndexTo(kept, n) && M.IndexTo(kept, n)[0] == 0
  {
    if n > 1 { FirstRecord(kept, n - 1); }
  }

  lemma NopIsNotWide()
    ensures M.Base("nop") == "nop" && !M.Contains("nop", "multi-word")
  {
    assert "nop"[1..] == "op" && "op"[1..] == "p" && "p"[1..] == "";
    assert M.FindSlash("") == 0 && M.FindSlash("p") == 1 && M.FindSlash("op") == 2;
    NotHere("p", "multi-word");
    NotHere("op", "multi-word");
    NotHere("nop", "multi-word");
  }

  lemma JumpDecodes(s: M.Record, index: map<int, nat>, i: nat, n: nat)
    requires s.op == 2 && s.target == Some(0) && 0 in index && index[0] == 0 && 0 < i < n
    ensures M.ToDalvik(M.Sanitise(M.Decode(s, CALLS, index), i, n)) == M.Ins(0x28, [0])
  {
    hide M.Contains, M.Base, M.IsRef, M.VRegs, M.HasLit;
    NopIsNotWide();
    var d := M.Sanitise(M.Decode(s, CALLS, index), i, n);
    assert d.family == "nop" && d.target == Some(0);
    NopIsNoAlu(d.vregs);
  }

  ghost predicate IsFarBody(p: Program) {
    |p| == 44 && (forall i :: 0 <= i < 43 ==> p[i] == CallThrough(0)) && p[43] == M.Ins(0x28, [0])
  }

  lemma FarBody()
    ensures IsFarBody(M.Body(FarRows(), CALLS))
  {
    hide M.Decode, M.Sanitise, M.ToDalvik, M.Kept;
    var kept := FarRows();
    NothingSkipped(kept);
    var index := M.IndexTo(kept, 44);
    FirstRecord(kept, 44);
    forall i | 0 <= i < 43 ensures M.Body(kept, CALLS)[i] == CallThrough(0) {
      InvokeDecodes(kept[i], index, i, 44);
    }
    JumpDecodes(kept[43], index, 43, 44);
  }

  lemma CallFormats()
    ensures Fmt(CallThrough(0)) == F35c && Fmt(M.Ins(0x28, [0])) == F10t
  {
  }

  lemma {:induction false} FarOffsets(p: Program, i: nat)
    requires IsFarBody(p) && i <= 43
    ensures Offset(p, i) == 3 * i
  {
    hide FormatOf;
    CallFormats();
    if i > 0 { FarOffsets(p, i - 1); }
  }

  lemma FarSize(p: Program)
    requires IsFarBody(p)
    ensures |Assemble(p)| == 130
  {
    hide FormatOf;
    CallFormats();
    FarOffsets(p, 43);
    assert Offset(p, 44) == Offset(p, 43) + Units(Fmt(p[43]));
  }

  /** The machine's registers, result and log after n calls. */
  function AfterCalls(env: Env, c: Core, n: nat): (r: Core)
    requires |c.regs| >= 16
    ensures |r.regs| == |c.regs| && |r.log| == |c.log| + n
  {
    if n == 0 then c
    else
      var b := AfterCalls(env, c, n - 1);
      var call := Call(Invoke(0), 0, [b.regs[0]]);
      b.(log := b.log + [call], result := env.host(b.log, call))
  }

  lemma {:induction false} StepsListSnoc(env: Env, p: Program, s: Place, n: nat)
    ensures StepsList(env, p, s, n + 1) ==
      match StepsList(env, p, s, n) { case Goes(s') => StepList(env, p, s') case e => e }
    decreases n
  {
    hide StepList;
    if n > 0 {
      match StepList(env, p, s)
      case Goes(s') => StepsListSnoc(env, p, s', n - 1);
      case _ =>
    } else {
      assert StepsList(env, p, s, 1) ==
        match StepList(env, p, s) { case Goes(s') => StepsList(env, p, s', 0) case e => e };
    }
  }

  lemma ListCalls(env: Env, p: Program, c: Core, n: nat)
    requires IsFarBody(p) && |c.regs| >= 16 && n < 43
    ensures StepList(env, p, Place(n, AfterCalls(env, c, n))) == Goes(Place(n + 1, AfterCalls(env, c, n + 1)))
  {
    hide FormatOf, Apply, Meaning;
    CallFormats();
    CallDoes(env, AfterCalls(env, c, n), 0);
  }

  lemma {:induction false} CallsRun(env: Env, d: Image, code: Code, p: Program, c: Core, n: nat)
    requires Loaded(d, code, p) && IsFarBody(p) && |c.regs| >= 16 && n <= 43
    ensures StepsList(env, p, Place(0, c), n) == Goes(Place(n, AfterCalls(env, c, n)))
    ensures code.valid && Runnable(d, code)
    ensures Steps(env, d, code, Machine(0, c), n) == Running(Machine(3 * n, AfterCalls(env, c, n)))
    decreases n
  {
    hide Loaded, Step, StepList, OperandsFit, FormatOf;
    LoadedRuns(d, code, p);
    if n > 0 {
      CallsRun(env, d, code, p, c, n - 1);
      var s, m := Place(n - 1, AfterCalls(env, c, n - 1)), Machine(3 * (n - 1), AfterCalls(env, c, n - 1));
      StepsListSnoc(env, p, Place(0, c), n - 1);
      StepsSnoc(env, d, code, Machine(0, c), n - 1);
      ListCalls(env, p, c, n - 1);
      FarOffsets(p, n - 1);
      FarOffsets(p, n);
      CallFormats();
      CallFits();
      StepPlain(env, d, code, p, s, m);
    }
  }

  lemma CallFits()
    ensures OperandsFit(CallThrough(0))
  {
  }

  lemma JumpMisses(env: Env, d: Image, code: Code, p: Program, c: Core)
    requires Loaded(d, code, p) && IsFarBody(p)
    ensures StepList(env, p, Place(43, c)) == Goes(Place(0, c))
    ensures code.valid && Runnable(d, code)
    ensures Step(env, d, code, Machine(129, c)) == Running(Machine(256, c))
  {
    hide Loaded, Decode, Fetch, Assemble, Bytes, At, FormatOf, OperandsFit, Step;
    LoadedRuns(d, code, p);
    CallFormats();
    FarOffsets(p, 43);
    FarOffsets(p, 0);
    OperandsOfJump(p[43]);
    Decodes(d, code.insnsOff, p, 43);
    Turn(env, d, code, p, 43, Machine(129, c));
    assert Sext(-129, HALF8) == 127;
  }

  lemma PastTheEnd(env: Env, d: Image, code: Code, p: Program, c: Core)
    requires Loaded(d, code, p) && IsFarBody(p)
    ensures Step(env, d, code, Machine(256, c)) == Returned(c.result, c.log)
  {
    hide Assemble, Bytes, At, FormatOf;
    FarSize(p);
  }

  /** The shortest recovered body that goes wrong. Its distances do not fit, and the
      interpreter makes the 43 calls once and returns, where the instruction list starts
      over with the first call. */
  lemma FarTrace(env: Env, d: Image, code: Code, c: Core)
    requires Loaded(d, code, M.Body(FarRows(), CALLS)) && |c.regs| >= 16
    ensures |M.Kept(FarRows())| == 44 && !DistancesFit(M.Body(FarRows(), CALLS))
    ensures StepsList(env, M.Body(FarRows(), CALLS), Place(0, c), 44) == Goes(Place(0, AfterCalls(env, c, 43)))
    ensures code.valid && Runnable(d, code)
    ensures Steps(env, d, code, Machine(0, c), 45) ==
      Returned(AfterCalls(env, c, 43).result, AfterCalls(env, c, 43).log)
  {
    hide Loaded, Step, StepList, StepsList, Steps, M.Kept, M.Body, AfterCalls, FormatOf;
    var p, b := M.Body(FarRows(), CALLS), AfterCalls(env, c, 43);
    FarBody();
    CallFormats();
    FarOffsets(p, 43);
    FarOffsets(p, 0);
    assert IsBranch(p[43]) && !BranchFits(p, 43);
    CallsRun(env, d, code, p, c, 43);
    JumpMisses(env, d, code, p, b);
    PastTheEnd(env, d, code, p, b);
    StepsListSnoc(env, p, Place(0, c), 43);
    StepsSnoc(env, d, code, Machine(0, c), 43);
    StepsSnoc(env, d, code, Machine(0, c), 44);
  }
}
