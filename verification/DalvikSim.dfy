// Assembled code, run by the interpreter, does what its instruction list does.

module DalvikSim {
  import opened Common
  import opened DexModel
  import LE = LittleEndian
  import opened DalvikIsa
  import opened DalvikAsm
  import opened DalvikVm
  import opened DalvikList

  // ----- one instruction -----

  ghost predicate Matches(f: Fields, u: seq<u16>) {
    && 1 <= |u| <= 3 && f.op == u[0] % 256 && f.b1 == u[0] / 256
    && (|u| >= 2 ==> f.w1 == u[1])
    && (|u| >= 3 ==> f.w2 == u[2] && f.dw == u[1] + TWO16 * u[2])
  }

  lemma Head8Fields(op: byte, a: int)
    requires IsByte(a)
    ensures Head8(op, a) % 256 == op && Head8(op, a) / 256 == a
  {
  }

  lemma Head44Fields(op: byte, a: int, b: int)
    requires IsNibble(a) && IsNibble(b)
    ensures Head44(op, a, b) % 256 == op
    ensures Head44(op, a, b) / 256 % 16 == a && Head44(op, a, b) / 256 / 16 == b
  {
  }

  lemma PairFields(hi: int, lo: int)
    requires IsByte(hi) && IsByte(lo)
    ensures Pair(hi, lo) % 256 == lo && Pair(hi, lo) / 256 == hi
  {
  }

  lemma Low16Fields(v: int)
    ensures IsHalf(v) ==> Low16(v) == v
    ensures Sext(Low16(v), HALF16) == Sext(v, HALF16)
    ensures InSigned(v, HALF16) ==> Sext(Low16(v), HALF16) == v
  {
    SextMod(v, HALF16);
    SextIff(v, HALF16);
  }

  lemma LongFields(v: int)
    ensures Sext(Low16(v) + TWO16 * High16(v), HALF32) == Sext(v, HALF32)
    ensures InSigned(v, HALF32) ==> Sext(Low16(v) + TWO16 * High16(v), HALF32) == v
  {
    var u := v % TWO32;
    assert u % TWO16 == v % TWO16;
    assert Low16(v) + TWO16 * High16(v) == u;
    SextMod(v, HALF32);
    SextIff(v, HALF32);
  }

  /** The effect with its target replaced. */
  function Toward(e: Effect, to: int): Effect {
    match e
    case Goto(_, s) => Goto(to, s)
    case If(t, a, b, _) => If(t, a, b, to)
    case _ => e
  }

  // Plain formats, then branches: decoding gives back the meaning.

  lemma PlainHeads(ins: Instr, cur: int, f: Fields)
    requires Fmt(ins) in {F10x, F11x, F11n, F12x, Unknown} && OperandsFit(ins) && Matches(f, Encode(ins, cur))
    ensures Decode(f) == Decoded(Meaning(ins), 1)
  {
    hide Head8, Head44, Sext;
    var a, b := Operand(ins, 0), Operand(ins, 1);
    match Fmt(ins)
    case F11x => Head8Fields(ins.op, a);
    case F12x => Head44Fields(ins.op, a, b);
    case F11n =>
      NibbleHead(ins.op, a, b);
    case _ =>
  }

  lemma NibbleHead(op: byte, a: int, b: int)
    requires IsNibble(a) && InSigned(b, HALF4)
    ensures Head44(op, a, b) % 256 == op && Head44(op, a, b) / 256 % 16 == a
    ensures Sext(Head44(op, a, b) / 256 / 16, HALF4) == b
  {
    Head44Fields(op, a, b % 16);
    SextMod(b, HALF4);
    SextIff(b, HALF4);
  }

  lemma PlainPairs(ins: Instr, cur: int, f: Fields)
    requires Fmt(ins) in {F22x, F21s, F21h, F21c} && OperandsFit(ins) && Matches(f, Encode(ins, cur))
    ensures Decode(f) == Decoded(Meaning(ins), 2)
  {
    hide Head8, Low16, Sext;
    Head8Fields(ins.op, Operand(ins, 0));
    Low16Fields(Operand(ins, 1));
  }

  lemma PlainNibbles(ins: Instr, cur: int, f: Fields)
    requires Fmt(ins) in {F22s, F22c} && OperandsFit(ins) && Matches(f, Encode(ins, cur))
    ensures Decode(f) == Decoded(Meaning(ins), 2)
  {
    hide Head44, Low16, Sext;
    Head44Fields(ins.op, Operand(ins, 0), Operand(ins, 1));
    Low16Fields(Operand(ins, 2));
  }

  lemma PlainTriples(ins: Instr, cur: int, f: Fields)
    requires Fmt(ins) in {F23x, F22b} && OperandsFit(ins) && Matches(f, Encode(ins, cur))
    ensures Decode(f) == Decoded(Meaning(ins), 2)
  {
    hide Head8, Pair, Sext;
    var a, b, c := Operand(ins, 0), Operand(ins, 1), Operand(ins, 2);
    Head8Fields(ins.op, a);
    SextMod(c, HALF8);
    SextIff(c, HALF8);
    if Fmt(ins) == F22b { PairFields(c % 256, b); } else { PairFields(c, b); }
  }

  lemma PlainLong(ins: Instr, cur: int, f: Fields)
    requires Fmt(ins) in {F31i, F3rc} && OperandsFit(ins) && Matches(f, Encode(ins, cur))
    ensures Decode(f) == Decoded(Meaning(ins), 3)
  {
    hide Head8, Low16, High16, Sext;
    var a, b, c := Operand(ins, 0), Operand(ins, 1), Operand(ins, 2);
    if Fmt(ins) == F31i {
      Head8Fields(ins.op, a);
      LongFields(b);
    } else {
      Head8Fields(ins.op, b);
      Low16Fields(c);
      Low16Fields(a);
    }
  }

  /** The nibbles of the third unit and of the first are the argument registers. */
  lemma InvokeNibbles(r: seq<int>, f: Fields)
    requires |r| <= 5 && (forall x :: x in r ==> IsNibble(x))
    requires f.w2 == Nib(r, 3) * 4096 + Nib(r, 2) * 256 + Nib(r, 1) * 16 + Nib(r, 0)
    requires f.b1 % 16 == Nib(r, 4)
    ensures InvokeRegs(f)[..|r|] == r
  {
    forall i | 0 <= i < |r| ensures InvokeRegs(f)[i] == r[i] {
      assert r[i] in r;
      FourNibbles(Nib(r, 0), Nib(r, 1), Nib(r, 2), Nib(r, 3));
      NibOf(r, i);
    }
  }

  lemma NibOf(r: seq<int>, i: nat)
    requires i < |r| && IsNibble(r[i])
    ensures Nib(r, i) == r[i]
  {
  }

  lemma FourNibbles(a: int, b: int, c: int, d: int)
    requires IsNibble(a) && IsNibble(b) && IsNibble(c) && IsNibble(d)
    ensures var w := d * 4096 + c * 256 + b * 16 + a;
      w % 16 == a && w / 16 % 16 == b && w / 256 % 16 == c && w / 4096 == d
  {
    var w := d * 4096 + c * 256 + b * 16 + a;
    assert w / 16 == d * 256 + c * 16 + b;
    assert w / 256 == d * 16 + c;
  }

  lemma PlainInvoke(ins: Instr, cur: int, f: Fields)
    requires Fmt(ins) == F35c && OperandsFit(ins) && Matches(f, Encode(ins, cur))
    ensures Decode(f) == Decoded(Meaning(ins), 3)
  {
    hide Head44, Low16, Nib, InvokeRegs;
    var r := ins.regs;
    NibbleRange(r, 4);
    Head44Fields(ins.op, Nib(r, 4), |r|);
    Low16Fields(Operand(ins, 1));
    InvokeNibbles(r, f);
  }

  lemma NibbleRange(r: seq<int>, i: nat)
    ensures IsNibble(Nib(r, i))
  {
  }

  lemma Jumps(ins: Instr, cur: int, f: Fields)
    requires Fmt(ins) in {F10t, F20t, F30t} && Matches(f, Encode(ins, cur))
    ensures Decode(f) == Decoded(Toward(Meaning(ins), Sext(Target(ins) - cur, Reach(Fmt(ins)))), Units(Fmt(ins)))
  {
    hide Head8, Low16, High16, Sext, DecodeHigh;
    var v := Target(ins) - cur;
    Low16Fields(v);
    LongFields(v);
    SextMod(v, HALF8);
    if Fmt(ins) == F10t { Head8Fields(ins.op, v % 256); }
  }

  lemma Tests(ins: Instr, cur: int, f: Fields)
    requires Fmt(ins) in {F21t, F22t} && OperandsFit(ins) && Matches(f, Encode(ins, cur))
    ensures Decode(f) == Decoded(Toward(Meaning(ins), Sext(Target(ins) - cur, Reach(Fmt(ins)))), Units(Fmt(ins)))
  {
    hide Head8, Head44, Low16, Sext, DecodeHigh;
    var a, b := Operand(ins, 0), Operand(ins, 1);
    Low16Fields(Target(ins) - cur);
    if Fmt(ins) == F22t { Head44Fields(ins.op, a, b); } else { Head8Fields(ins.op, a); }
  }

  /** Every instruction whose operands fit is understood as it was meant; a branch as
      its distance, truncated to what the format holds. */
  lemma Understood(ins: Instr, cur: int, f: Fields)
    requires OperandsFit(ins) && Matches(f, Encode(ins, cur))
    ensures Decode(f).width == Units(Fmt(ins))
    ensures Decode(f).effect ==
      if IsBranch(ins) then Toward(Meaning(ins), Sext(Target(ins) - cur, Reach(Fmt(ins)))) else Meaning(ins)
  {
    hide Encode, Decode, Meaning, OperandsFit, FormatOf, Matches, Sext;
    match Fmt(ins)
    case F10x | F11x | F11n | F12x | Unknown => PlainHeads(ins, cur, f);
    case F22x | F21s | F21h | F21c => PlainPairs(ins, cur, f);
    case F22s | F22c => PlainNibbles(ins, cur, f);
    case F23x | F22b => PlainTriples(ins, cur, f);
    case F31i | F3rc => PlainLong(ins, cur, f);
    case F35c => PlainInvoke(ins, cur, f);
    case F10t | F20t | F30t => Jumps(ins, cur, f);
    case F21t | F22t => Tests(ins, cur, f);
  }

  // ----- fetching from the image -----

  lemma UnitInImage(d: Image, base: nat, u: seq<u16>, k: nat)
    requires At(d, base, Bytes(u)) && k < |u|
    ensures base + 2 * k + 2 <= |d|
    ensures d[base + 2 * k] == u[k] % 256 && d[base + 2 * k + 1] == u[k] / 256 && Word16(d, base + 2 * k) == u[k]
  {
    hide Bytes;
    UnitBytes(u, k);
    var bs := Bytes(u);
    assert d[base + 2 * k] == d[base..base + |bs|][2 * k];
    assert d[base + 2 * k + 1] == d[base..base + |bs|][2 * k + 1];
  }

  lemma LongInImage(d: Image, o: nat)
    requires o + 4 <= |d|
    ensures Word32(d, o) == Word16(d, o) + TWO16 * Word16(d, o + 2)
  {
    var s := d[o..o + 4];
    assert s[1..][1..] == s[2..] && s[2..][1..] == s[3..] && s[3..][1..] == [];
    assert LE.Decode(s) == s[0] + 256 * (s[1] + 256 * LE.Decode(s[2..]));
    assert LE.Decode(s[2..]) == s[2] + 256 * (s[3] + 256 * LE.Decode([]));
  }

  /** Instruction i of an assembled program, as the interpreter fetches it. */
  lemma Fetched(d: Image, base: nat, p: Program, i: nat)
    requires At(d, base, Bytes(Assemble(p))) && i < |p|
    ensures base + 2 * Offset(p, i) < |d|
    ensures Matches(Fetch(d, base + 2 * Offset(p, i)), UnitsOf(p, i))
  {
    hide Bytes, Assemble, UnitsOf, Word32, Word16, FormatOf, At;
    var u, o := Assemble(p), Offset(p, i);
    SliceIn(p, i);
    var n := Units(Fmt(p[i]));
    assert u[o..o + n] == UnitsOf(p, i);
    forall k | 0 <= k < n ensures UnitsOf(p, i)[k] == u[o + k] {}
    UnitInImage(d, base, u, o);
    if n >= 2 { UnitInImage(d, base, u, o + 1); }
    if n >= 3 {
      UnitInImage(d, base, u, o + 2);
      LongInImage(d, base + 2 * o + 2);
    }
  }

  lemma SliceIn(p: Program, i: nat)
    requires i < |p|
    ensures var o, n := Offset(p, i), Units(Fmt(p[i]));
      o + n <= |Assemble(p)| && Assemble(p)[o..o + n] == UnitsOf(p, i)
  {
    SliceTo(p, i, |p|);
  }

  // ----- one step -----

  /** The code item's units are the assembled program. */
  ghost predicate Loaded(d: Image, code: Code, p: Program) {
    && code.valid && Runnable(d, code) && |d| <= TWO32
    && code.insnsSize == |Assemble(p)| && At(d, code.insnsOff, Bytes(Assemble(p)))
  }

  ghost predicate Same(p: Program, s: Place, m: Machine) {
    s.at <= |p| && m.pc == Offset(p, s.at) && m.core == s.core
  }

  ghost predicate SameEnd(p: Program, e: Ends, o: Outcome) {
    match e
    case Goes(s) => o.Running? && Same(p, s, o.m)
    case Returns(v, log) => o == Returned(v, log)
    case Fails => o == Faulted
  }

  lemma ApplyToward(env: Env, c: Core, e: Effect, to: int)
    ensures Apply(env, c, Toward(e, to)) == Apply(env, c, e)
  {
  }

  lemma Resolved(p: Program, ins: Instr)
    ensures Fmt(Resolve(p, ins)) == Fmt(ins) && (OperandsFit(ins) ==> OperandsFit(Resolve(p, ins)))
    ensures !IsBranch(ins) ==> Resolve(p, ins) == ins
    ensures IsBranch(ins) && 0 <= Target(ins) < |p| ==> Target(Resolve(p, ins)) == Offset(p, Target(ins))
  {
    hide FormatOf;
  }

  lemma ResolvedMeaning(p: Program, ins: Instr, to: int)
    requires IsBranch(ins)
    ensures Toward(Meaning(Resolve(p, ins)), to) == Toward(Meaning(ins), to)
  {
    hide FormatOf;
  }

  /** What the interpreter makes of instruction i. */
  lemma Decodes(d: Image, base: nat, p: Program, i: nat)
    requires At(d, base, Bytes(Assemble(p))) && i < |p| && OperandsFit(p[i])
    requires IsBranch(p[i]) ==> 0 <= Target(p[i]) < |p|
    ensures base + 2 * Offset(p, i) < |d|
    ensures var x := Decode(Fetch(d, base + 2 * Offset(p, i)));
      && x.width == Units(Fmt(p[i]))
      && x.effect == if IsBranch(p[i])
                     then Toward(Meaning(p[i]), Sext(Offset(p, Target(p[i])) - Offset(p, i), Reach(Fmt(p[i]))))
                     else Meaning(p[i])
  {
    hide Bytes, Assemble, Decode, Fetch, Encode, Meaning, FormatOf, Sext, Matches, OperandsFit, At, Resolve, Offset;
    Fetched(d, base, p, i);
    Resolved(p, p[i]);
    Understood(Resolve(p, p[i]), Offset(p, i), Fetch(d, base + 2 * Offset(p, i)));
    if IsBranch(p[i]) {
      ResolvedMeaning(p, p[i], Sext(Offset(p, Target(p[i])) - Offset(p, i), Reach(Fmt(p[i]))));
    }
  }

  lemma DistanceZeroIff(p: Program, i: nat, j: nat)
    requires i < |p| && j < |p|
    ensures Offset(p, j) - Offset(p, i) == 0 <==> i == j
  {
    hide Units, FormatOf;
    if i < j { OffsetsIncrease(p, i, j); } else if j < i { OffsetsIncrease(p, j, i); }
  }

  lemma OffsetBelowEnd(p: Program, i: nat)
    requires i <= |p|
    ensures Offset(p, i) <= |Assemble(p)| && (i < |p| <==> Offset(p, i) < |Assemble(p)|)
  {
    hide Units, FormatOf, Assemble;
    if i < |p| { OffsetsIncrease(p, i, |p|); }
  }

  lemma MeaningKind(ins: Instr)
    ensures IsBranch(ins) <==> Meaning(ins).Goto? || Meaning(ins).If?
    ensures Meaning(ins).Goto? ==> (Meaning(ins).short <==> Fmt(ins) == F10t)
    ensures Meaning(ins).If? ==> Fmt(ins) != F10t
  {
  }

  lemma TakenOnlyByBranches(env: Env, c: Core, e: Effect)
    ensures Apply(env, c, e).Next? && Apply(env, c, e).taken ==> e.Goto? || e.If?
  {
  }

  /** What a branch instruction leads to, given where it would go. */
  function Branched(env: Env, m: Machine, e: Effect, dist: int, width: nat): Outcome
    requires 0 <= m.pc + width < TWO32 && 0 <= m.pc + dist < TWO32
  {
    match Apply(env, m.core, e)
    case Fault => Faulted
    case Left(v, log) => Returned(v, log)
    case Next(core, taken) =>
      if taken && dist == 0 && e.Goto? && e.short then Returned(core.result, core.log)
      else Running(Machine(m.pc + (if taken && dist != 0 then dist else width), core))
  }

  lemma AfterBranch(env: Env, m: Machine, e: Effect, dist: int, width: nat)
    requires (e.Goto? || e.If?) && 0 <= m.pc + width < TWO32 && 0 <= m.pc + dist < TWO32
    ensures After(env, m, Decoded(Toward(e, dist), width)) == Branched(env, m, e, dist, width)
  {
    hide Apply;
    ApplyToward(env, m.core, e, dist);
  }

  lemma AfterPlain(env: Env, m: Machine, e: Effect, width: nat)
    requires !e.Goto? && !e.If? && 0 <= m.pc + width < TWO32
    ensures After(env, m, Decoded(e, width)) == match Apply(env, m.core, e) {
      case Fault => Faulted
      case Left(v, log) => Returned(v, log)
      case Next(core, _) => Running(Machine(m.pc + width, core)) }
  {
    hide Apply;
    TakenOnlyByBranches(env, m.core, e);
  }

  /** The turn of the interpreter at instruction i. */
  lemma Turn(env: Env, d: Image, code: Code, p: Program, i: nat, m: Machine)
    requires Loaded(d, code, p) && i < |p| && m.pc == Offset(p, i)
    ensures code.insnsOff + 2 * m.pc < |d| && m.pc + Units(Fmt(p[i])) < TWO32
    ensures Step(env, d, code, m) == After(env, m, Decode(Fetch(d, code.insnsOff + 2 * m.pc)))
  {
    hide Assemble, Bytes, After, Decode, Fetch, FormatOf, Units, Offset;
    OffsetBelowEnd(p, i);
    OffsetNext(p, i);
    OffsetBelowEnd(p, i + 1);
    assert code.insnsOff + m.pc * 2 < TWO32;
  }

  lemma StepPlain(env: Env, d: Image, code: Code, p: Program, s: Place, m: Machine)
    requires Loaded(d, code, p) && Same(p, s, m) && s.at < |p| && OperandsFit(p[s.at]) && !IsBranch(p[s.at])
    ensures SameEnd(p, StepList(env, p, s), Step(env, d, code, m))
  {
    hide Assemble, Bytes, At, Apply, Decode, Fetch, Meaning, FormatOf, Units, OperandsFit, Offset, Step, After;
    Turn(env, d, code, p, s.at, m);
    Decodes(d, code.insnsOff, p, s.at);
    MeaningKind(p[s.at]);
    AfterPlain(env, m, Meaning(p[s.at]), Units(Fmt(p[s.at])));
    TakenOnlyByBranches(env, s.core, Meaning(p[s.at]));
    OffsetNext(p, s.at);
  }

  lemma StepBranch(env: Env, d: Image, code: Code, p: Program, s: Place, m: Machine)
    requires Loaded(d, code, p) && Same(p, s, m) && s.at < |p| && OperandsFit(p[s.at])
    requires IsBranch(p[s.at]) && BranchFits(p, s.at)
    ensures SameEnd(p, StepList(env, p, s), Step(env, d, code, m))
  {
    hide Assemble, Bytes, At, Apply, Decode, Fetch, Meaning, FormatOf, Units, Sext, OperandsFit, Offset, Reach, Step,
      After, Toward;
    var ins, to := p[s.at], Target(p[s.at]);
    var dist := Offset(p, to) - Offset(p, s.at);
    Turn(env, d, code, p, s.at, m);
    Decodes(d, code.insnsOff, p, s.at);
    MeaningKind(ins);
    SextIff(dist, Reach(Fmt(ins)));
    OffsetBelowEnd(p, to);
    assert Offset(p, to) < TWO32;
    AfterBranch(env, m, Meaning(ins), dist, Units(Fmt(ins)));
    DistanceZeroIff(p, s.at, to);
    OffsetNext(p, s.at);
  }

  /** One instruction of the list is one turn of the interpreter. */
  lemma StepSim(env: Env, d: Image, code: Code, p: Program, s: Place, m: Machine)
    requires Loaded(d, code, p) && Encodable(p) && Same(p, s, m)
    ensures SameEnd(p, StepList(env, p, s), Step(env, d, code, m))
  {
    hide Assemble, Bytes, At, Apply, Decode, Fetch, Meaning, FormatOf, Units, OperandsFit, Offset, BranchFits, IsBranch;
    OffsetBelowEnd(p, s.at);
    if s.at < |p| {
      if IsBranch(p[s.at]) { StepBranch(env, d, code, p, s, m); } else { StepPlain(env, d, code, p, s, m); }
    }
  }

  lemma OffsetNext(p: Program, i: nat)
    requires i < |p|
    ensures Offset(p, i + 1) == Offset(p, i) + Units(Fmt(p[i]))
  {
    hide Units, FormatOf;
  }

  /** Simulation, for every program whose operands and branch distances fit, every
      environment, every start and every number of steps: the interpreter on the
      assembled bytes and the list machine on the program stay together, the program
      counter always at the start of the current instruction, and end alike. */
  lemma {:induction false} AssembledRuns(env: Env, d: Image, code: Code, p: Program, s: Place, m: Machine, n: nat)
    requires Loaded(d, code, p) && Encodable(p) && Same(p, s, m)
    ensures SameEnd(p, StepsList(env, p, s, n), Steps(env, d, code, m, n))
    decreases n
  {
    hide Loaded, Encodable, Step, StepList, Same;
    LoadedRuns(d, code, p);
    if n > 0 {
      StepSim(env, d, code, p, s, m);
      if StepList(env, p, s).Goes? {
        AssembledRuns(env, d, code, p, StepList(env, p, s).p, Step(env, d, code, m).m, n - 1);
      }
    }
  }

  lemma LoadedRuns(d: Image, code: Code, p: Program)
    requires Loaded(d, code, p)
    ensures code.valid && Runnable(d, code) && At(d, code.insnsOff, Bytes(Assemble(p)))
  {
  }

  // ----- exactly when a branch arrives -----

  /** The interpreter reads back the true distance of a branch if and only if it fits
      the format: 8 bits for goto, 16 for goto/16 and the tests, 32 for goto/32. */
  lemma BranchLandsIff(d: Image, base: nat, p: Program, i: nat)
    requires At(d, base, Bytes(Assemble(p))) && i < |p| && OperandsFit(p[i])
    requires IsBranch(p[i]) && 0 <= Target(p[i]) < |p|
    ensures base + 2 * Offset(p, i) < |d|
    ensures var e := Decode(Fetch(d, base + 2 * Offset(p, i))).effect;
      && (e.Goto? || e.If?)
      && (Offset(p, i) + e.to == Offset(p, Target(p[i])) <==> BranchFits(p, i))
  {
    hide Assemble, Bytes, At, Decode, Fetch, Meaning, FormatOf, Units, Sext, OperandsFit, Offset;
    Decodes(d, base, p, i);
    MeaningKind(p[i]);
    SextIff(Offset(p, Target(p[i])) - Offset(p, i), Reach(Fmt(p[i])));
  }

  /** Where the interpreter goes on a taken branch of encoded distance off. */
  lemma AfterTaken(env: Env, m: Machine, e: Effect, off: int, width: nat)
    requires (e.Goto? || e.If?) && Apply(env, m.core, e).Next? && Apply(env, m.core, e).taken
    ensures After(env, m, Decoded(Toward(e, off), width)) ==
      if off == 0 && e.Goto? && e.short then Returned(Apply(env, m.core, e).core.result, Apply(env, m.core, e).core.log)
      else Running(Machine((m.pc + if off == 0 then width else off) % TWO32, Apply(env, m.core, e).core))
  {
    hide Apply;
    ApplyToward(env, m.core, e, off);
  }

  lemma WrongPlace(pc: int, off: int, to: int)
    requires 0 <= pc < HALF32 && -HALF16 <= off < HALF16 && 0 <= to < HALF32 && pc + off != to
    ensures (pc + off) % TWO32 != to
  {
  }

  lemma ListTaken(env: Env, p: Program, s: Place)
    requires s.at < |p| && IsBranch(p[s.at]) && 0 <= Target(p[s.at]) != s.at
    requires Apply(env, s.core, Meaning(p[s.at])).Next? && Apply(env, s.core, Meaning(p[s.at])).taken
    ensures StepList(env, p, s) == Goes(Place(Target(p[s.at]), Apply(env, s.core, Meaning(p[s.at])).core))
  {
    hide Apply, Meaning, FormatOf;
  }

  /** How far the program counter goes on a distance that does not fit. */
  function Strays(dist: int, half: int, width: nat): int
    requires half > 0
  {
    if Sext(dist, half) == 0 then width else Sext(dist, half)
  }

  lemma StraysElsewhere(pc: int, dist: int, half: int, width: nat)
    requires (half == HALF8 || half == HALF16) && !InSigned(dist, half) && width <= 3
    requires 0 <= pc < HALF32 && 0 <= pc + dist < HALF32
    ensures (pc + Strays(dist, half, width)) % TWO32 != pc + dist
  {
    hide Sext;
    SextIff(dist, half);
    WrongPlace(pc, Strays(dist, half, width), pc + dist);
  }

  lemma FarReach(p: Program, i: nat)
    requires i < |p| && |Assemble(p)| < HALF32 && IsBranch(p[i]) && 0 <= Target(p[i]) < |p| && !BranchFits(p, i)
    ensures Target(p[i]) != i && Offset(p, i) < HALF32 && Offset(p, Target(p[i])) < HALF32
    ensures var half := Reach(Fmt(p[i]));
      (half == HALF8 || half == HALF16) && !InSigned(Offset(p, Target(p[i])) - Offset(p, i), half)
  {
    hide Assemble, FormatOf, Offset, Units;
    OffsetBelowEnd(p, i);
    OffsetBelowEnd(p, Target(p[i]));
    DistanceZeroIff(p, i, Target(p[i]));
  }

  /** Wherever a taken branch of that distance leads. */
  function StrayPc(pc: u32, dist: int, half: int, width: nat): u32
    requires half > 0
  {
    (pc + Strays(dist, half, width)) % TWO32
  }

  lemma AfterStrays(env: Env, m: Machine, e: Effect, dist: int, half: int, width: nat)
    requires (e.Goto? || e.If?) && half > 0 && Apply(env, m.core, e).Next? && Apply(env, m.core, e).taken
    ensures var o := After(env, m, Decoded(Toward(e, Sext(dist, half)), width));
      o.Returned? || o == Running(Machine(StrayPc(m.pc, dist, half, width), Apply(env, m.core, e).core))
  {
    hide Apply, Sext, After, Toward;
    AfterTaken(env, m, e, Sext(dist, half), width);
  }

  /** The interpreter's turn on a taken branch. */
  lemma TurnTaken(env: Env, d: Image, code: Code, p: Program, s: Place, m: Machine)
    requires Loaded(d, code, p) && Same(p, s, m) && s.at < |p| && OperandsFit(p[s.at])
    requires IsBranch(p[s.at]) && 0 <= Target(p[s.at]) < |p|
    requires Apply(env, s.core, Meaning(p[s.at])).Next? && Apply(env, s.core, Meaning(p[s.at])).taken
    ensures var dist := Offset(p, Target(p[s.at])) - Offset(p, s.at);
      var pc := StrayPc(m.pc, dist, Reach(Fmt(p[s.at])), Units(Fmt(p[s.at])));
      || Step(env, d, code, m).Returned?
      || Step(env, d, code, m) == Running(Machine(pc, Apply(env, s.core, Meaning(p[s.at])).core))
  {
    hide Assemble, Bytes, At, Apply, Decode, Fetch, Meaning, FormatOf, Sext, OperandsFit, Offset, Step, After,
      Toward, Units, Reach,
      StrayPc, Loaded, IsBranch, Target, Runnable;
    LoadedRuns(d, code, p);
    var ins := p[s.at];
    var dist := Offset(p, Target(ins)) - Offset(p, s.at);
    Turn(env, d, code, p, s.at, m);
    Decodes(d, code.insnsOff, p, s.at);
    MeaningKind(ins);
    AfterStrays(env, m, Meaning(ins), dist, Reach(Fmt(ins)), Units(Fmt(ins)));
  }

  /** A far branch is not followed correctly: the distance read back is another. */
  lemma FarBranchMisses(env: Env, d: Image, code: Code, p: Program, s: Place, m: Machine)
    requires Loaded(d, code, p) && Same(p, s, m) && |Assemble(p)| < HALF32 && s.at < |p| && OperandsFit(p[s.at])
    requires IsBranch(p[s.at]) && 0 <= Target(p[s.at]) < |p| && !BranchFits(p, s.at)
    requires Apply(env, s.core, Meaning(p[s.at])).Next? && Apply(env, s.core, Meaning(p[s.at])).taken
    ensures !SameEnd(p, StepList(env, p, s), Step(env, d, code, m))
  {
    hide Loaded, Assemble, Apply, Meaning, FormatOf, OperandsFit, Offset, Step, StepList, Units, IsBranch, Target,
      Reach, BranchFits, InSigned, Strays;
    LoadedRuns(d, code, p);
    var ins, to := p[s.at], Target(p[s.at]);
    FarReach(p, s.at);
    ListTaken(env, p, s);
    TurnTaken(env, d, code, p, s, m);
    StraysElsewhere(m.pc, Offset(p, to) - Offset(p, s.at), Reach(Fmt(ins)), Units(Fmt(ins)));
  }

  /** Exactly when a taken branch is followed: the step of the interpreter agrees with
      the step of the list if and only if the branch distance fits. */
  lemma TakenBranchIff(env: Env, d: Image, code: Code, p: Program, s: Place, m: Machine)
    requires Loaded(d, code, p) && Same(p, s, m) && |Assemble(p)| < HALF32 && s.at < |p| && OperandsFit(p[s.at])
    requires IsBranch(p[s.at]) && 0 <= Target(p[s.at]) < |p|
    requires Apply(env, s.core, Meaning(p[s.at])).Next? && Apply(env, s.core, Meaning(p[s.at])).taken
    ensures SameEnd(p, StepList(env, p, s), Step(env, d, code, m)) <==> BranchFits(p, s.at)
  {
    hide Loaded, Same, OperandsFit, IsBranch, BranchFits, Apply, Meaning, SameEnd, StepList, Step, Assemble;
    LoadedRuns(d, code, p);
    if BranchFits(p, s.at) { StepBranch(env, d, code, p, s, m); } else { FarBranchMisses(env, d, code, p, s, m); }
  }

  /** A short goto over 128 to 255 units, at the start of a program: the interpreter
      leaves at once, where the list goes on at the target. */
  lemma FarGotoIsLost(env: Env, d: Image, code: Code, p: Program, c: Core)
    requires Loaded(d, code, p) && |p| > 0 && Fmt(p[0]) == F10t
    requires 0 <= Target(p[0]) < |p| && 128 <= Offset(p, Target(p[0])) < 256 && |Assemble(p)| < TWO32 - 256
    ensures StepList(env, p, Place(0, c)) == Goes(Place(Target(p[0]), c))
    ensures Steps(env, d, code, Machine(0, c), 2) == Returned(c.result, c.log)
  {
    hide Assemble, Bytes, At, Decode, Fetch, FormatOf, Units, OperandsFit;
    var to := Target(p[0]);
    OperandsOfJump(p[0]);
    Decodes(d, code.insnsOff, p, 0);
    OffsetBelowEnd(p, 0);
    FirstAddress(code.insnsOff);
    assert Sext(Offset(p, to), HALF8) == Offset(p, to) - 256;
    var m := Machine(0, c);
    var gone := Machine(TWO32 + Offset(p, to) - 256, c);
    assert Step(env, d, code, m) == Running(gone);
    assert Step(env, d, code, gone) == Returned(c.result, c.log);
    assert Steps(env, d, code, m, 2) == Steps(env, d, code, gone, 1);
  }

  lemma FirstAddress(base: u32)
    ensures base % TWO32 == base
  {
  }

  lemma OperandsOfJump(ins: Instr)
    requires Fmt(ins) == F10t
    ensures OperandsFit(ins)
  {
  }
}
