// From a recorded virtual-machine trace of one method to Dalvik instructions.

module DevirtModel {
  import opened Common
  import opened DalvikAsm

  // ----- families -----

  predicate Contains(s: string, sub: string) {
    sub <= s || (s != [] && Contains(s[1..], sub))
  }

  function FindSlash(s: string): (n: nat)
    ensures n <= |s|
  {
    if s == [] || s[0] == '/' then 0 else 1 + FindSlash(s[1..])
  }

  /** A family name up to its first slash. */
  function Base(fam: string): string { fam[..FindSlash(fam)] }

  /** The opcode of the three-register form of an arithmetic family. */
  function AluOf(base: string): (op: Option<byte>)
    ensures op.Some? ==> 0x90 <= op.value <= 0xaf
  {
    if base == "add" then Some(0x90)
    else if base == "sub" then Some(0x91)
    else if base == "mul" then Some(0x92)
    else if base == "udiv" || base == "sdiv" then Some(0x93)
    else if base == "and" then Some(0x95)
    else if base == "orr" then Some(0x96)
    else if base == "eor" then Some(0x97)
    else if base == "lsl" then Some(0x98)
    else if base == "lsr" then Some(0x9a)
    else if base == "asr" then Some(0x99)
    else if base == "fadd" then Some(0xa6)
    else if base == "fsub" then Some(0xa7)
    else if base == "fmul" then Some(0xa8)
    else if base == "fdiv" then Some(0xa9)
    else None
  }

  // ----- trace records to VM instructions -----

  datatype Record = Record(p: int, op: u16, raw: u32, target: Option<int>)

  datatype VmInstr = VmInstr(op: u16, family: string, vregs: seq<int>,
                             pool: Option<int>, lit: Option<int>, target: Option<int>)

  type Families = map<u16, string>

  const SKIPPED: u16 := 0xffff

  function Kept(rows: seq<Record>): seq<Record> {
    if rows == [] then []
    else (if rows[0].op == SKIPPED then [] else [rows[0]]) + Kept(rows[1..])
  }

  /** Position to index; the last record of a position wins. */
  function IndexTo(kept: seq<Record>, n: nat): (m: map<int, nat>)
    requires n <= |kept|
    ensures forall k :: k in m ==> m[k] < n
  {
    if n == 0 then map[] else IndexTo(kept, n - 1)[kept[n - 1].p := n - 1]
  }

  function FamilyOf(fams: Families, op: u16): string { if op in fams then fams[op] else "?" }

  predicate IsRef(fam: string) { fam == "invoke" || Contains(fam, "ref") || fam == "const/ref" }

  predicate IsAlu(fam: string) { AluOf(Base(fam)).Some? || fam == "binary-int" }

  function VRegs(fam: string, hi: nat): seq<int> {
    if IsRef(fam) then [hi % 16]
    else if IsAlu(fam) then [hi % 16, hi / 16 % 16, hi / 256 % 16]
    else if Contains(fam, "move") || Contains(fam, "if-") then [hi % 16, hi / 16 % 16]
    else if fam == "const" then [hi % 16]
    else []
  }

  predicate HasLit(fam: string) {
    !IsRef(fam) && !IsAlu(fam) && !Contains(fam, "move") && !Contains(fam, "if-") && fam == "const"
  }

  function Decode(s: Record, fams: Families, index: map<int, nat>): VmInstr {
    var fam, hi := FamilyOf(fams, s.op), s.raw / 256;
    VmInstr(s.op, fam, VRegs(fam, hi),
            if IsRef(fam) then Some(hi) else None,
            if HasLit(fam) then Some(hi / 16) else None,
            if s.target.Some? && s.target.value in index then Some(index[s.target.value]) else None)
  }

  predicate IsIf(fam: string) { Contains(fam, "if-") }

  predicate IsGoto(fam: string) {
    fam == "nop/goto" || fam == "nop" || fam == "goto" || (|fam| >= 4 && fam[|fam| - 4..] == "goto")
  }

  /** A branch gets a target inside the method and other than itself, or becomes a nop. */
  function Sanitise(d: VmInstr, i: nat, n: nat): VmInstr {
    if !IsIf(d.family) && !IsGoto(d.family) then d
    else if d.target.Some? && 0 <= d.target.value < n && d.target.value != i then d
    else if IsIf(d.family) && i + 1 < n then d.(target := Some(i + 1))
    else d.(family := "nop", target := None)
  }

  function VmCode(rows: seq<Record>, fams: Families): (r: seq<VmInstr>)
    ensures |r| == |Kept(rows)|
  {
    var kept := Kept(rows);
    var index := IndexTo(kept, |kept|);
    seq(|kept|, i requires 0 <= i < |kept| => Sanitise(Decode(kept[i], fams, index), i, |kept|))
  }

  // ----- VM instructions to Dalvik -----

  function Ins(op: byte, ops: seq<int>): Instr { Instr(op, ops, []) }

  const NOP := Ins(0x00, [])

  function OrZero(o: Option<int>): int { if o.Some? then o.value else 0 }

  /** Arithmetic; no result for too few registers. */
  function AluInstr(fam: string, v: seq<int>): Option<Instr> {
    var op := AluOf(Base(fam));
    if op.None? then None
    else if Contains(fam, "/2addr") && |v| >= 2 then Some(Ins(op.value + 0x20, [v[0], v[1]]))
    else if |v| >= 3 then Some(Ins(op.value, [v[0], v[1], v[2]]))
    else if |v| >= 2 then Some(Ins(op.value + 0x20, [v[0], v[1]]))
    else None
  }

  function ConstInstr(r: int, lit: int): Instr {
    if -8 <= lit <= 7 then Ins(0x12, [r, lit])
    else if -32768 <= lit <= 32767 then Ins(0x13, [r, lit])
    else Ins(0x14, [r, lit])
  }

  function ReturnInstr(v: seq<int>): Instr { if v == [] then Ins(0x0e, []) else Ins(0x0f, [v[0]]) }

  /** The families that come last in the chain. */
  function OtherInstr(d: VmInstr): Instr {
    var fam, v := d.family, d.vregs;
    if fam == "if-cmp" && |v| >= 2 then Ins(0x32, [v[0], v[1], OrZero(d.target)])
    else if (fam == "if-testz" || fam == "if-testz/return") && |v| >= 1 then Ins(0x38, [v[0], OrZero(d.target)])
    else if Base(fam) == "wide" || Contains(fam, "multi-word") then
      Ins(0x16, [if v == [] then 0 else v[0], OrZero(d.lit)])
    else if fam == "nop/goto" || fam == "nop" then
      if d.target.Some? then Ins(0x28, [d.target.value]) else NOP
    else if "return" <= fam then ReturnInstr(v)
    else NOP
  }

  function ToDalvik(d: VmInstr): Instr {
    var fam, v := d.family, d.vregs;
    var alu := AluInstr(fam, v);
    if alu.Some? then alu.value
    else if fam == "binary-int" && |v| >= 3 then Ins(0x90, [v[0], v[1], v[2]])
    else if fam == "binary-int" && |v| == 2 then Ins(0xb0, [v[0], v[1]])
    else if (fam == "move/unary" || fam == "move") && |v| >= 2 then Ins(0x01, [v[0], v[1]])
    else if (fam == "move-result/const" || fam == "move-result") && |v| >= 1 then Ins(0x0a, [v[0]])
    else if fam == "const" && |v| >= 1 then ConstInstr(v[0], OrZero(d.lit))
    else if fam == "invoke" then Instr(0x6e, [0, OrZero(d.pool)], if v == [] then [0] else v)
    else if (fam == "ref-op" || fam == "const/ref") && |v| >= 1 then
      if |v| >= 2 && d.pool.Some? then Ins(0x54, [v[0], v[1], d.pool.value])
      else if d.pool.Some? then Ins(0x1a, [v[0], d.pool.value])
      else Ins(0x07, [v[0], if |v| > 1 then v[1] else v[0]])
    else OtherInstr(d)
  }

  /** The Dalvik program recovered from a trace. */
  function Body(rows: seq<Record>, fams: Families): (p: Program)
    ensures |p| == |Kept(rows)|
  {
    var vm := VmCode(rows, fams);
    seq(|vm|, i requires 0 <= i < |vm| => ToDalvik(vm[i]))
  }
}
