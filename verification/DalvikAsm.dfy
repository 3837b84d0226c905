// The assembler: lists of instructions, whose branches name other instructions by
// index, to code units. A mnemonic is represented by its opcode; an opcode without a
// row in the mnemonic table stands for an unknown mnemonic.

module DalvikAsm {
  import opened Common

  datatype Format = F10x | F11x | F11n | F12x | F22x | F21s | F21h | F21c | F31i | F23x | F22b
                  | F22s | F22c | F22t | F21t | F10t | F20t | F30t | F35c | F3rc | Unknown

  function FormatOf(op: byte): Format {
    if op == 0x00 || op == 0x0e then F10x
    else if op == 0x01 || op == 0x04 || op == 0x07 || op == 0x21 || 0x7b <= op <= 0x8f || 0xb0 <= op <= 0xcf then F12x
    else if op == 0x02 || op == 0x08 then F22x
    else if 0x0a <= op <= 0x0d || 0x0f <= op <= 0x11 || op == 0x1d || op == 0x1e || op == 0x27 then F11x
    else if op == 0x12 then F11n
    else if op == 0x13 || op == 0x16 then F21s
    else if op == 0x14 || op == 0x17 then F31i
    else if op == 0x15 || op == 0x19 then F21h
    else if op == 0x1a || op == 0x1c || op == 0x1f || op == 0x22 || 0x60 <= op <= 0x6d then F21c
    else if op == 0x20 || op == 0x23 || 0x52 <= op <= 0x5f then F22c
    else if op == 0x28 then F10t
    else if op == 0x29 then F20t
    else if op == 0x2a then F30t
    else if 0x2d <= op <= 0x31 || 0x44 <= op <= 0x51 || 0x90 <= op <= 0xaf then F23x
    else if 0x32 <= op <= 0x37 then F22t
    else if 0x38 <= op <= 0x3d then F21t
    else if 0x6e <= op <= 0x72 then F35c
    else if 0x74 <= op <= 0x78 then F3rc
    else if 0xd0 <= op <= 0xd7 then F22s
    else if 0xd8 <= op <= 0xe2 then F22b
    else Unknown
  }

  function Units(f: Format): (n: nat)
    ensures 1 <= n <= 3
  {
    match f
    case F22x | F21s | F21h | F21c | F21t | F23x | F22b | F22s | F22c | F22t | F20t => 2
    case F31i | F30t | F35c | F3rc => 3
    case _ => 1
  }

  /** Operands as in the mnemonic notation; a branch has its target among them. */
  datatype Instr = Instr(op: byte, ops: seq<int>, regs: seq<int>)

  type Program = seq<Instr>

  function Fmt(ins: Instr): Format { FormatOf(ins.op) }

  /** An operand; missing ones are zero. */
  function Operand(ins: Instr, i: nat): int { if i < |ins.ops| then ins.ops[i] else 0 }

  // ----- encoding one instruction -----

  function Or(a: nat, b: nat): nat {
    if a == 0 then b
    else if b == 0 then a
    else (if a % 2 == 1 || b % 2 == 1 then 1 else 0) + 2 * Or(a / 2, b / 2)
  }

  /** (hi << 8) | lo, truncated; the two overlap unless lo is a byte. */
  function Pair(hi: int, lo: int): u16 {
    (lo % 256 + 256 * Or(hi % 256, lo / 256 % 256)) % TWO16
  }

  /** Opcode and one whole byte. */
  function Head8(op: byte, a: int): u16 { (a * 256 + op) % TWO16 }

  /** Opcode and two nibbles, b the upper one. */
  function Head44(op: byte, a: int, b: int): u16 {
    var lo: int, hi: int := a % 16, b % 16;
    hi * 4096 + lo * 256 + op
  }

  function Low16(v: int): u16 { v % TWO16 }

  function High16(v: int): u16 { v % TWO32 / TWO16 }

  function Nib(s: seq<int>, i: nat): int { if i < |s| then s[i] % 16 else 0 }

  /** The units of an instruction at unit offset cur, branch target already an offset. */
  function Encode(ins: Instr, cur: int): (u: seq<u16>)
    ensures |u| == Units(Fmt(ins))
  {
    var op := ins.op;
    var a, b, c := Operand(ins, 0), Operand(ins, 1), Operand(ins, 2);
    match Fmt(ins)
    case F10x => [op]
    case F11x => [Head8(op, a)]
    case F11n | F12x => [Head44(op, a, b)]
    case F22x | F21s | F21h | F21c => [Head8(op, a), Low16(b)]
    case F31i => [Head8(op, a), Low16(b), High16(b)]
    case F23x => [Head8(op, a), Pair(c, b)]
    case F22b => [Head8(op, a), Pair(c % 256, b)]
    case F22s | F22c => [Head44(op, a, b), Low16(c)]
    case F22t => [Head44(op, a, b), Low16(c - cur)]
    case F21t => [Head8(op, a), Low16(b - cur)]
    case F10t => [Head8(op, (a - cur) % 256)]
    case F20t => [op, Low16(a - cur)]
    case F30t => [op, Low16(a - cur), High16(a - cur)]
    case F35c =>
      var r := ins.regs;
      [Head44(op, Nib(r, 4), |r|), Low16(b), Nib(r, 3) * 4096 + Nib(r, 2) * 256 + Nib(r, 1) * 16 + Nib(r, 0)]
    case F3rc => [Head8(op, b), Low16(c), Low16(a)]
    case Unknown => [0]
  }

  // ----- a whole program -----

  /** Where instruction i starts; the end of the program for i = |p|. */
  function Offset(p: Program, i: nat): (n: nat)
    requires i <= |p|
    ensures i <= n <= 3 * i
  {
    if i == 0 then 0 else Offset(p, i - 1) + Units(Fmt(p[i - 1]))
  }

  /** Which operand is a branch target. */
  function TargetSlot(f: Format): Option<nat> {
    match f
    case F10t | F20t | F30t => Some(0)
    case F21t => Some(1)
    case F22t => Some(2)
    case _ => None
  }

  /** Target index to unit offset; an index outside the program stays as it is. */
  function Resolve(p: Program, ins: Instr): Instr {
    match TargetSlot(Fmt(ins))
    case None => ins
    case Some(k) =>
      if k < |ins.ops| && 0 <= ins.ops[k] < |p| then ins.(ops := ins.ops[k := Offset(p, ins.ops[k])]) else ins
  }

  function UnitsOf(p: Program, i: nat): (u: seq<u16>)
    requires i < |p|
    ensures |u| == Units(Fmt(p[i]))
  {
    Encode(Resolve(p, p[i]), Offset(p, i))
  }

  /** The units of the first i instructions. */
  function AssembleTo(p: Program, i: nat): (u: seq<u16>)
    requires i <= |p|
    ensures |u| == Offset(p, i)
  {
    if i == 0 then [] else AssembleTo(p, i - 1) + UnitsOf(p, i - 1)
  }

  function Assemble(p: Program): (u: seq<u16>)
    ensures |u| == Offset(p, |p|)
  {
    AssembleTo(p, |p|)
  }

  lemma {:induction false} OffsetsIncrease(p: Program, i: nat, j: nat)
    requires i < j <= |p|
    ensures Offset(p, i) + Units(Fmt(p[i])) <= Offset(p, j)
    decreases j
  {
    hide Units, FormatOf;
    if i + 1 < j { OffsetsIncrease(p, i, j - 1); }
  }

  lemma {:induction false} SliceTo(p: Program, i: nat, n: nat)
    requires i < n <= |p|
    ensures Offset(p, i) <= Offset(p, i + 1) <= Offset(p, n)
    ensures AssembleTo(p, n)[Offset(p, i)..Offset(p, i + 1)] == UnitsOf(p, i)
    decreases n
  {
    hide UnitsOf, Units, FormatOf;
    if i + 1 < n {
      SliceTo(p, i, n - 1);
      assert AssembleTo(p, n)[..Offset(p, n - 1)] == AssembleTo(p, n - 1);
    }
  }

  // ----- bytes -----

  /** Code units as little-endian bytes. */
  function Bytes(u: seq<u16>): (bs: seq<byte>)
    ensures |bs| == 2 * |u|
  {
    seq(2 * |u|, k requires 0 <= k < 2 * |u| => if k % 2 == 0 then u[k / 2] % 256 else u[k / 2] / 256)
  }

  lemma BytesAppend(a: seq<u16>, b: seq<u16>)
    ensures Bytes(a + b) == Bytes(a) + Bytes(b)
  {
    forall k | 0 <= k < 2 * |b| ensures Bytes(a + b)[2 * |a| + k] == Bytes(b)[k] {
      assert (2 * |a| + k) / 2 == |a| + k / 2;
    }
  }

  lemma UnitBytes(u: seq<u16>, k: nat)
    requires k < |u|
    ensures Bytes(u)[2 * k] == u[k] % 256 && Bytes(u)[2 * k + 1] == u[k] / 256
  {
    assert (2 * k + 1) / 2 == k && (2 * k) % 2 == 0 && (2 * k + 1) % 2 == 1;
  }

  /** First pass: the unit offset of every instruction. */
  method OffsetTable(p: Program) returns (offs: seq<nat>)
    ensures |offs| == |p| && forall j :: 0 <= j < |p| ==> offs[j] == Offset(p, j)
  {
    hide Units, FormatOf;
    offs := [];
    var u := 0;
    for i := 0 to |p|
      invariant |offs| == i && u == Offset(p, i)
      invariant forall j :: 0 <= j < i ==> offs[j] == Offset(p, j)
    {
      offs := offs + [u];
      u := u + Units(Fmt(p[i]));
    }
  }

  /** Last pass: pairs of bytes back to units. */
  method Regroup(raw: seq<byte>, ghost all: seq<u16>) returns (units: seq<u16>)
    requires raw == Bytes(all)
    ensures units == all
  {
    hide Bytes;
    units := [];
    var i := 0;
    while i + 1 < |raw|
      invariant i == 2 * |units| && i <= |raw| && units == all[..|units|]
      decreases |raw| - i
    {
      UnitBytes(all, |units|);
      var lo: int, hi: int := raw[i], raw[i + 1];
      units := units + [lo + 256 * hi];
      i := i + 2;
    }
  }

  /** The assembler; its result depends on the program alone. */
  method AssembleProgram(p: Program) returns (units: seq<u16>)
    ensures units == Assemble(p)
  {
    hide Encode, Units, Bytes, Resolve, FormatOf;
    var offs := OffsetTable(p);
    var raw: seq<byte> := Bytes([]);
    for i := 0 to |p|
      invariant raw == Bytes(AssembleTo(p, i))
    {
      var ins := ResolveOne(p, p[i], offs);
      BytesAppend(AssembleTo(p, i), UnitsOf(p, i));
      raw := raw + Bytes(Encode(ins, offs[i]));
    }
    units := Regroup(raw, Assemble(p));
  }

  method ResolveOne(p: Program, ins: Instr, offs: seq<nat>) returns (r: Instr)
    requires |offs| == |p| && forall j :: 0 <= j < |p| ==> offs[j] == Offset(p, j)
    ensures r == Resolve(p, ins)
  {
    r := ins;
    var slot := TargetSlot(Fmt(ins));
    if slot.Some? && slot.value < |ins.ops| {
      var idx := ins.ops[slot.value];
      if 0 <= idx < |offs| {
        r := ins.(ops := ins.ops[slot.value := offs[idx]]);
      }
    }
  }
}
