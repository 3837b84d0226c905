// Recovered bodies stay inside a frame of sixteen registers.

module DevirtSafety {
  import opened Common
  import opened DalvikIsa
  import opened DalvikAsm
  import opened DalvikList
  import opened DevirtModel

  // ----- pool indices are cut to sixteen bits -----

  function PoolSlot(f: Format): Option<nat> {
    match f
    case F21c | F35c => Some(1)
    case F22c => Some(2)
    case _ => None
  }

  /** The instruction whose pool index is what sixteen bits hold of it. */
  function Norm(ins: Instr): (r: Instr)
    ensures r.op == ins.op && r.regs == ins.regs && |r.ops| == |ins.ops|
  {
    match PoolSlot(Fmt(ins))
    case None => ins
    case Some(k) => if k < |ins.ops| then ins.(ops := ins.ops[k := ins.ops[k] % TWO16]) else ins
  }

  function NormAll(p: Program): (r: Program)
    ensures |r| == |p| && forall i :: 0 <= i < |p| ==> r[i] == Norm(p[i])
  {
    seq(|p|, i requires 0 <= i < |p| => Norm(p[i]))
  }

  lemma NormEncodes(ins: Instr, cur: int)
    ensures Encode(Norm(ins), cur) == Encode(ins, cur)
  {
    hide FormatOf, Head8, Head44;
  }

  lemma {:induction false} NormOffset(p: Program, i: nat)
    requires i <= |p|
    ensures Offset(NormAll(p), i) == Offset(p, i)
  {
    hide FormatOf, Units;
    if i > 0 { NormOffset(p, i - 1); }
  }

  lemma NormUnits(p: Program, i: nat)
    requires i < |p|
    ensures UnitsOf(NormAll(p), i) == UnitsOf(p, i)
  {
    hide FormatOf, Encode, Units;
    NormOffset(p, i);
    var ins := p[i];
    NormEncodes(ins, Offset(p, i));
    var slot := TargetSlot(Fmt(ins));
    if slot.Some? && slot.value < |ins.ops| && 0 <= ins.ops[slot.value] < |p| {
      NormOffset(p, ins.ops[slot.value]);
    }
  }

  /** Cutting pool indices does not change the code. */
  lemma {:induction false} NormAssembles(p: Program, i: nat)
    requires i <= |p|
    ensures AssembleTo(NormAll(p), i) == AssembleTo(p, i)
  {
    hide UnitsOf, Offset, NormAll;
    if i > 0 {
      NormAssembles(p, i - 1);
      NormUnits(p, i - 1);
    }
  }

  // ----- registers -----

  /** Only registers 0 to 15 are named. */
  ghost predicate FrameSafe(e: Effect) {
    match e
    case Move(dst, src) => IsNibble(dst) && IsNibble(src)
    case TakeResult(dst) => IsNibble(dst)
    case Set(dst, _) => IsNibble(dst)
    case Unary(_, dst, src) => IsNibble(dst) && IsNibble(src)
    case Binary(_, dst, a, b) => IsNibble(dst) && IsNibble(a) && IsNibble(b)
    case Literal(_, dst, a, _) => IsNibble(dst) && IsNibble(a)
    case Host(_, _, regs, dest) => (forall r :: r in regs ==> IsNibble(r)) && (dest.Reg? ==> IsNibble(dest.r))
    case HostRange(_, _, first, count) => first >= 0 && count >= 0
    case LeaveReg(src) => IsNibble(src)
    case If(_, a, b, _) => IsNibble(a) && (b.Some? ==> IsNibble(b.value))
    case Broken => false
    case _ => true
  }

  lemma SafeApplies(env: Env, c: Core, e: Effect)
    requires FrameSafe(e) && |c.regs| >= 16
    ensures Apply(env, c, e) != Fault
  {
  }

  ghost predicate Good(ins: Instr) {
    OperandsFit(Norm(ins)) && FrameSafe(Meaning(Norm(ins)))
  }

  lemma GoodTwo(op: byte, a: int, b: int)
    requires IsNibble(a) && IsNibble(b) && (op == 0x01 || op == 0x07 || 0xb0 <= op <= 0xcf)
    ensures Good(Ins(op, [a, b])) && !IsBranch(Ins(op, [a, b]))
  {
  }

  lemma GoodThree(op: byte, a: int, b: int, c: int)
    requires IsNibble(a) && IsNibble(b) && IsNibble(c) && 0x90 <= op <= 0xaf
    ensures Good(Ins(op, [a, b, c])) && !IsBranch(Ins(op, [a, b, c]))
  {
  }

  lemma GoodConst(r: int, lit: int)
    requires IsNibble(r) && 0 <= lit < 0x10_0000
    ensures Good(ConstInstr(r, lit)) && !IsBranch(ConstInstr(r, lit))
  {
  }

  lemma GoodField(r: int, b: int, pool: int)
    requires IsNibble(r) && IsNibble(b)
    ensures Good(Ins(0x54, [r, b, pool])) && !IsBranch(Ins(0x54, [r, b, pool]))
  {
  }

  lemma GoodString(r: int, pool: int)
    requires IsNibble(r)
    ensures Good(Ins(0x1a, [r, pool])) && !IsBranch(Ins(0x1a, [r, pool]))
  {
  }

  lemma GoodInvoke(v: seq<int>, pool: int)
    requires |v| <= 5 && forall r :: r in v ==> IsNibble(r)
    ensures Good(Instr(0x6e, [0, pool], v)) && !IsBranch(Instr(0x6e, [0, pool], v))
  {
  }

  lemma GoodOne(op: byte, r: int)
    requires IsNibble(r) && (op == 0x0a || op == 0x0f)
    ensures Good(Ins(op, [r])) && !IsBranch(Ins(op, [r]))
  {
  }

  lemma GoodWide(r: int)
    requires IsNibble(r)
    ensures Good(Ins(0x16, [r, 0])) && !IsBranch(Ins(0x16, [r, 0]))
  {
  }

  lemma GoodNone(op: byte)
    requires op == 0x00 || op == 0x0e
    ensures Good(Ins(op, [])) && !IsBranch(Ins(op, []))
  {
  }

  lemma GoodCompare(a: int, b: int, to: int)
    requires IsNibble(a) && IsNibble(b)
    ensures Good(Ins(0x32, [a, b, to])) && IsBranch(Ins(0x32, [a, b, to])) && Target(Ins(0x32, [a, b, to])) == to
  {
  }

  lemma GoodTest(a: int, to: int)
    requires IsNibble(a)
    ensures Good(Ins(0x38, [a, to])) && IsBranch(Ins(0x38, [a, to])) && Target(Ins(0x38, [a, to])) == to
  {
  }

  lemma GoodGoto(to: int)
    ensures Good(Ins(0x28, [to])) && IsBranch(Ins(0x28, [to])) && Target(Ins(0x28, [to])) == to
  {
  }

  // ----- VM instructions -----

  ghost predicate TargetOk(t: Option<int>, i: nat, n: nat) {
    t.Some? && 0 <= t.value < n && t.value != i
  }

  ghost predicate VmOk(d: VmInstr, i: nat, n: nat) {
    && |d.vregs| <= 3 && (forall r :: r in d.vregs ==> IsNibble(r))
    && (d.lit.Some? ==> 0 <= d.lit.value < 0x10_0000 && d.family == "const" && d.vregs != [])
    && (IsIf(d.family) ==> TargetOk(d.target, i, n))
    && (IsGoto(d.family) && d.target.Some? ==> TargetOk(d.target, i, n))
  }

  lemma DecodedOk(s: Record, fams: Families, index: map<int, nat>)
    ensures var d := Decode(s, fams, index);
      && |d.vregs| <= 3 && (forall r :: r in d.vregs ==> IsNibble(r))
      && (d.lit.Some? ==> 0 <= d.lit.value < 0x10_0000 && HasLit(d.family) && d.vregs != [])
  {
    hide IsRef, IsAlu, Contains;
  }

  lemma NotHere(s: string, sub: string)
    requires s != [] && sub != [] && s[0] != sub[0] && !Contains(s[1..], sub)
    ensures !Contains(s, sub)
  {
  }

  lemma NopIsNoTest()
    ensures !IsIf("nop")
  {
    assert "nop"[1..] == "op" && "op"[1..] == "p" && "p"[1..] == "";
    NotHere("p", "if-");
    NotHere("op", "if-");
    NotHere("nop", "if-");
  }

  lemma SanitisedOk(d: VmInstr, i: nat, n: nat)
    requires |d.vregs| <= 3 && forall r :: r in d.vregs ==> IsNibble(r)
    requires d.lit.Some? ==> 0 <= d.lit.value < 0x10_0000 && HasLit(d.family) && d.vregs != []
    ensures VmOk(Sanitise(d, i, n), i, n)
  {
    hide IsRef, IsAlu;
    NopIsNoTest();
  }

  lemma VmCodeOk(rows: seq<Record>, fams: Families, i: nat)
    requires i < |Kept(rows)|
    ensures VmOk(VmCode(rows, fams)[i], i, |Kept(rows)|)
  {
    hide Decode, Sanitise, VmOk, HasLit, Kept;
    var kept := Kept(rows);
    var index := IndexTo(kept, |kept|);
    DecodedOk(kept[i], fams, index);
    SanitisedOk(Decode(kept[i], fams, index), i, |kept|);
  }

  // ----- bodies -----

  /** An instruction of a recovered body of n: sixteen registers are enough, and a
      branch goes to another instruction of the body. */
  ghost predicate BodyOk(ins: Instr, i: nat, n: nat) {
    Good(ins) && (IsBranch(ins) ==> 0 <= Target(ins) < n && Target(ins) != i)
  }

  lemma TestsAreTests()
    ensures IsIf("if-cmp") && IsIf("if-testz") && IsIf("if-testz/return")
  {
  }

  lemma OtherOk(d: VmInstr, i: nat, n: nat)
    requires VmOk(d, i, n) && d.lit == None
    ensures BodyOk(OtherInstr(d), i, n)
  {
    hide Good, IsBranch, Target, Base, Contains, IsIf;
    TestsAreTests();
    var v := d.vregs;
    forall k | 0 <= k < |v| ensures IsNibble(v[k]) { assert v[k] in v; }
    if |v| >= 2 { GoodCompare(v[0], v[1], OrZero(d.target)); }
    if |v| >= 1 {
      GoodTest(v[0], OrZero(d.target));
      GoodWide(v[0]);
      GoodOne(0x0f, v[0]);
    }
    GoodWide(0);
    GoodNone(0x00);
    GoodNone(0x0e);
    GoodGoto(OrZero(d.target));
  }

  lemma AluOk(d: VmInstr, i: nat, n: nat)
    requires VmOk(d, i, n) && AluInstr(d.family, d.vregs).Some?
    ensures BodyOk(AluInstr(d.family, d.vregs).value, i, n)
  {
    hide Good, IsBranch, Target, Base, AluOf, Contains;
    var v, op := d.vregs, AluOf(Base(d.family)).value;
    forall k | 0 <= k < |v| ensures IsNibble(v[k]) { assert v[k] in v; }
    GoodTwo(op + 0x20, v[0], v[1]);
    if |v| >= 3 { GoodThree(op, v[0], v[1], v[2]); }
  }

  lemma ToDalvikOk(d: VmInstr, i: nat, n: nat)
    requires VmOk(d, i, n)
    ensures BodyOk(ToDalvik(d), i, n)
  {
    hide Good, IsBranch, Target, Base, AluInstr, OtherInstr, ConstInstr, Contains, IsGoto;
    var fam, v := d.family, d.vregs;
    forall k | 0 <= k < |v| ensures IsNibble(v[k]) { assert v[k] in v; }
    if AluInstr(fam, v).Some? {
      AluOk(d, i, n);
    } else {
      if |v| >= 3 { GoodThree(0x90, v[0], v[1], v[2]); }
      if |v| >= 2 {
        GoodTwo(0xb0, v[0], v[1]);
        GoodTwo(0x01, v[0], v[1]);
        GoodTwo(0x07, v[0], v[1]);
        GoodField(v[0], v[1], OrZero(d.pool));
      }
      if |v| >= 1 {
        GoodOne(0x0a, v[0]);
        GoodConst(v[0], OrZero(d.lit));
        GoodString(v[0], OrZero(d.pool));
        GoodTwo(0x07, v[0], v[0]);
      }
      GoodInvoke(if v == [] then [0] else v, OrZero(d.pool));
      if d.lit == None { OtherOk(d, i, n); }
    }
  }

  /** Every recovered body, for every trace and every family table. */
  lemma RecoveredOk(rows: seq<Record>, fams: Families, i: nat)
    requires i < |Kept(rows)|
    ensures BodyOk(Body(rows, fams)[i], i, |Kept(rows)|)
  {
    hide VmOk, ToDalvik, BodyOk, VmCode, Kept;
    VmCodeOk(rows, fams, i);
    ToDalvikOk(VmCode(rows, fams)[i], i, |Kept(rows)|);
  }
}
