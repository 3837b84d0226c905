// The instruction formats as the Dalvik documentation draws them: what stands in each byte
// of an encoded instruction.

module DalvikFormats {
  import opened Common
  import opened DalvikIsa
  import opened DalvikAsm
  import opened DalvikList
  import Sim = DalvikSim

  /** Two and four bytes, the lowest first. */
  function Two(v: int): seq<byte> { [v % 0x100, v / 0x100 % 0x100] }

  function Four(v: int): seq<byte> { [v % 0x100, v / 0x100 % 0x100, v / 0x1_0000 % 0x100, v / 0x100_0000 % 0x100] }

  /** Operands in the order of the mnemonic notation: registers, then literal, index or
      target. Branches hold the distance in code units from their own start. */
  function Drawn(ins: Instr, cur: int): seq<byte>
    requires OperandsFit(ins)
  {
    var op, r := ins.op, ins.regs;
    var a, b, c := Operand(ins, 0), Operand(ins, 1), Operand(ins, 2);
    match Fmt(ins)
    case F10x => [op, 0]
    case F11x => [op, a]
    case F11n => [op, 16 * (b % 16) + a]
    case F12x => [op, 16 * b + a]
    case F22x | F21c | F21s | F21h => [op, a] + Two(b)
    case F31i => [op, a] + Four(b)
    case F23x => [op, a, b, c]
    case F22b => [op, a, b, c % 0x100]
    case F22s | F22c => [op, 16 * b + a] + Two(c)
    case F22t => [op, 16 * b + a] + Two(c - cur)
    case F21t => [op, a] + Two(b - cur)
    case F10t => [op, (a - cur) % 0x100]
    case F20t => [op, 0] + Two(a - cur)
    case F30t => [op, 0] + Four(a - cur)
    case F35c =>
      [op, 16 * |r| + Register(r, 4)] + Two(b) +
      [16 * Register(r, 1) + Register(r, 0), 16 * Register(r, 3) + Register(r, 2)]
    case F3rc => [op, b] + Two(c) + Two(a)
    case Unknown => [0, 0]
  }

  /** Argument register i of a call; zero when there are fewer. */
  function Register(r: seq<int>, i: nat): (x: int)
    requires forall y :: y in r ==> IsNibble(y)
    ensures IsNibble(x)
  {
    if i < |r| then assert r[i] in r; r[i] else 0
  }

  lemma OneUnit(u: u16)
    ensures Bytes([u]) == [u % 256, u / 256]
  {
  }

  lemma TwoUnits(u: u16, v: u16)
    ensures Bytes([u, v]) == [u % 256, u / 256] + [v % 256, v / 256]
  {
    hide Bytes;
    BytesAppend([u], [v]);
    OneUnit(u);
    OneUnit(v);
    assert [u, v] == [u] + [v];
  }

  lemma ThreeUnits(u: u16, v: u16, w: u16)
    ensures Bytes([u, v, w]) == [u % 256, u / 256] + [v % 256, v / 256] + [w % 256, w / 256]
  {
    hide Bytes;
    BytesAppend([u, v], [w]);
    TwoUnits(u, v);
    OneUnit(w);
    assert [u, v, w] == [u, v] + [w];
  }

  lemma LowBytes(v: int)
    ensures [Low16(v) % 256, Low16(v) / 256] == Two(v)
  {
    var q, x := v / TWO16, v % TWO16;
    assert v == TWO16 * q + x;
    assert v % 256 == x % 256 && v / 256 == 256 * q + x / 256;
  }

  lemma HighBytes(v: int)
    ensures [High16(v) % 256, High16(v) / 256] == Two(v / TWO16)
  {
    var q, x := v / TWO32, v % TWO32;
    assert v == TWO32 * q + x;
    assert v / TWO16 == TWO16 * q + x / TWO16;
    LowBytes(v / TWO16);
    assert Low16(v / TWO16) == High16(v);
  }

  lemma FourBytes(v: int)
    ensures Four(v) == Two(v) + Two(v / TWO16)
  {
    var q, x := v / 0x1_0000, v % 0x1_0000;
    assert v / 0x100_0000 == q / 0x100;
  }

  lemma HeadByte(op: byte, a: int)
    requires IsByte(a)
    ensures [Head8(op, a) % 256, Head8(op, a) / 256] == [op, a]
  {
    Sim.Head8Fields(op, a);
  }

  lemma HeadNibbles(op: byte, a: int, b: int)
    ensures [Head44(op, a, b) % 256, Head44(op, a, b) / 256] == [op, 16 * (b % 16) + a % 16]
  {
  }

  lemma HeadAlone(op: byte)
    ensures op % 256 == op && op / 256 == 0
  {
  }

  lemma PlainDrawn(ins: Instr, cur: int)
    requires OperandsFit(ins) && Fmt(ins) in {F10x, F11x, F11n, F12x, F22x, F21c, F21s, F21h, F31i}
    ensures Bytes(Encode(ins, cur)) == Drawn(ins, cur)
  {
    hide Bytes, Head8, Head44, Low16, High16, FormatOf, Two, Four;
    var a, b := Operand(ins, 0), Operand(ins, 1);
    HeadAlone(ins.op);
    if Fmt(ins) == F10x {
      OneUnit(ins.op);
    } else if Fmt(ins) == F11x {
      OneUnit(Head8(ins.op, a));
      HeadByte(ins.op, a);
    } else if Fmt(ins) in {F11n, F12x} {
      OneUnit(Head44(ins.op, a, b));
      HeadNibbles(ins.op, a, b);
    } else if Fmt(ins) == F31i {
      ThreeUnits(Head8(ins.op, a), Low16(b), High16(b));
      HeadByte(ins.op, a);
      LowBytes(b);
      HighBytes(b);
      FourBytes(b);
    } else {
      TwoUnits(Head8(ins.op, a), Low16(b));
      HeadByte(ins.op, a);
      LowBytes(b);
    }
  }

  lemma TripleDrawn(ins: Instr, cur: int)
    requires OperandsFit(ins) && Fmt(ins) in {F23x, F22b, F22s, F22c, F3rc}
    ensures Bytes(Encode(ins, cur)) == Drawn(ins, cur)
  {
    hide Bytes, Head8, Head44, Low16, High16, FormatOf, Two, Pair;
    var a, b, c := Operand(ins, 0), Operand(ins, 1), Operand(ins, 2);
    if Fmt(ins) == F23x {
      TwoUnits(Head8(ins.op, a), Pair(c, b));
      HeadByte(ins.op, a);
      Sim.PairFields(c, b);
    } else if Fmt(ins) == F22b {
      TwoUnits(Head8(ins.op, a), Pair(c % 256, b));
      HeadByte(ins.op, a);
      Sim.PairFields(c % 256, b);
    } else if Fmt(ins) == F3rc {
      ThreeUnits(Head8(ins.op, b), Low16(c), Low16(a));
      HeadByte(ins.op, b);
      LowBytes(c);
      LowBytes(a);
    } else {
      TwoUnits(Head44(ins.op, a, b), Low16(c));
      HeadNibbles(ins.op, a, b);
      LowBytes(c);
    }
  }

  lemma BranchDrawn(ins: Instr, cur: int)
    requires OperandsFit(ins) && Fmt(ins) in {F22t, F21t, F10t, F20t, F30t}
    ensures Bytes(Encode(ins, cur)) == Drawn(ins, cur)
  {
    hide Bytes, Head8, Head44, Low16, High16, FormatOf, Two, Four;
    var a, b, c := Operand(ins, 0), Operand(ins, 1), Operand(ins, 2);
    HeadAlone(ins.op);
    if Fmt(ins) == F22t {
      TwoUnits(Head44(ins.op, a, b), Low16(c - cur));
      HeadNibbles(ins.op, a, b);
      LowBytes(c - cur);
    } else if Fmt(ins) == F21t {
      TwoUnits(Head8(ins.op, a), Low16(b - cur));
      HeadByte(ins.op, a);
      LowBytes(b - cur);
    } else if Fmt(ins) == F10t {
      OneUnit(Head8(ins.op, (a - cur) % 256));
      HeadByte(ins.op, (a - cur) % 256);
    } else if Fmt(ins) == F20t {
      TwoUnits(ins.op, Low16(a - cur));
      LowBytes(a - cur);
    } else {
      ThreeUnits(ins.op, Low16(a - cur), High16(a - cur));
      LowBytes(a - cur);
      HighBytes(a - cur);
      FourBytes(a - cur);
    }
  }

  lemma RegisterIsNib(r: seq<int>, i: nat)
    requires forall y :: y in r ==> IsNibble(y)
    ensures Nib(r, i) == Register(r, i)
  {
    if i < |r| { assert r[i] in r; }
  }

  lemma NibbleBytes(a: int, b: int, c: int, d: int)
    requires IsNibble(a) && IsNibble(b) && IsNibble(c) && IsNibble(d)
    ensures var w := d * 4096 + c * 256 + b * 16 + a;
      w < TWO16 && w % 256 == 16 * b + a && w / 256 == 16 * d + c
  {
  }

  lemma CallDrawn(ins: Instr, cur: int)
    requires OperandsFit(ins) && Fmt(ins) == F35c
    ensures Bytes(Encode(ins, cur)) == Drawn(ins, cur)
  {
    hide Bytes, Head44, Low16, FormatOf, Two, Nib, Register;
    var r, b := ins.regs, Operand(ins, 1);
    RegisterIsNib(r, 0);
    RegisterIsNib(r, 1);
    RegisterIsNib(r, 2);
    RegisterIsNib(r, 3);
    RegisterIsNib(r, 4);
    var n0, n1, n2, n3, n4 := Register(r, 0), Register(r, 1), Register(r, 2), Register(r, 3), Register(r, 4);
    NibbleBytes(n0, n1, n2, n3);
    ThreeUnits(Head44(ins.op, n4, |r|), Low16(b), n3 * 4096 + n2 * 256 + n1 * 16 + n0);
    HeadNibbles(ins.op, n4, |r|);
    LowBytes(b);
  }

  /** Every instruction whose operands fit is encoded as its format is drawn. */
  lemma EncodedAsDrawn(ins: Instr, cur: int)
    requires OperandsFit(ins)
    ensures Bytes(Encode(ins, cur)) == Drawn(ins, cur)
  {
    hide Bytes, Encode, Drawn, FormatOf;
    match Fmt(ins)
    case F23x | F22b | F22s | F22c | F3rc => TripleDrawn(ins, cur);
    case F22t | F21t | F10t | F20t | F30t => BranchDrawn(ins, cur);
    case F35c => CallDrawn(ins, cur);
    case Unknown => UnknownDrawn(ins, cur);
    case _ => PlainDrawn(ins, cur);
  }

  lemma UnknownDrawn(ins: Instr, cur: int)
    requires Fmt(ins) == Unknown
    ensures Bytes(Encode(ins, cur)) == Drawn(ins, cur)
  {
    hide FormatOf;
    OneUnit(0);
  }
}
