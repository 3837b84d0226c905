// Code items: written by the rebuilder, read back by the reader (code_item of the
// Dalvik Executable format, without tries and debug information).

module DexCode {
  import opened Common
  import LE = LittleEndian
  import opened DexModel
  import opened DalvikVm
  import Asm = DalvikAsm
  import Sim = DalvikSim

  /** The sixteen bytes before the instructions, as code units. */
  function HeadUnits(regs: u16, ins: u16, outs: u16, size: nat): (h: seq<u16>)
    ensures |h| == 8
  {
    [regs, ins, outs, 0, 0, 0, size % TWO16, size % TWO32 / TWO16]
  }

  function Item(regs: u16, ins: u16, outs: u16, units: seq<u16>): (ci: seq<byte>)
    ensures |ci| == 16 + 2 * |units|
  {
    Asm.Bytes(HeadUnits(regs, ins, outs, |units|) + units)
  }

  lemma EncodeFirst(v: nat, n: nat)
    ensures LE.Encode(v, 0) == [] && LE.Encode(v, n + 1) == [v % 256] + LE.Encode(v / 256, n)
  {
  }

  lemma TwoBytes(v: u16)
    ensures LE.Encode(v, 2) == Asm.Bytes([v])
  {
    hide Asm.Bytes, LE.Encode;
    OneUnit(v);
    EncodeFirst(v, 1);
    EncodeFirst(v / 256, 0);
    EncodeFirst(v / 256 / 256, 0);
    assert v / 256 % 256 == v / 256;
  }

  lemma FourBytes(v: u32)
    ensures LE.Encode(v, 4) == Asm.Bytes([v % TWO16, v / TWO16])
  {
    var a, b, c: nat := v / 256, v / 256 / 256, v / 256 / 256 / 256;
    assert LE.Encode(c, 1) == [c % 256] + LE.Encode(c / 256, 0);
    assert LE.Encode(b, 2) == [b % 256] + LE.Encode(c, 1);
    assert LE.Encode(a, 3) == [a % 256] + LE.Encode(b, 2);
    assert b == v / TWO16 && a % 256 == v % TWO16 / 256;
  }

  lemma HeadBytes(ci: seq<byte>, regs: u16, ins: u16, outs: u16, size: nat)
    requires |ci| == 16
    requires ci[0..2] == LE.Encode(regs, 2) && ci[2..4] == LE.Encode(ins, 2) && ci[4..6] == LE.Encode(outs, 2)
    requires ci[6..8] == LE.Encode(0, 2) && ci[8..12] == LE.Encode(0, 4) && ci[12..16] == LE.Encode(size % TWO32, 4)
    ensures ci == Asm.Bytes(HeadUnits(regs, ins, outs, size))
  {
    hide Asm.Bytes, LE.Encode;
    var h := HeadUnits(regs, ins, outs, size);
    TwoBytes(regs);
    TwoBytes(ins);
    TwoBytes(outs);
    TwoBytes(0);
    FourBytes(0);
    FourBytes(size % TWO32);
    var last: seq<u16> := [size % TWO16, size % TWO32 / TWO16];
    assert size % TWO32 % TWO16 == size % TWO16;
    Asm.BytesAppend([regs], [ins]);
    Asm.BytesAppend([regs] + [ins], [outs]);
    Asm.BytesAppend([regs] + [ins] + [outs], [0]);
    Asm.BytesAppend([regs] + [ins] + [outs] + [0], [0, 0]);
    Asm.BytesAppend([regs] + [ins] + [outs] + [0] + [0, 0], last);
    assert h == [regs] + [ins] + [outs] + [0] + [0, 0] + last;
    SixPieces(ci);
  }

  lemma SixPieces(s: seq<byte>)
    requires |s| == 16
    ensures s == s[0..2] + s[2..4] + s[4..6] + s[6..8] + s[8..12] + s[12..16]
  {
  }

  /** Header fields copied into place, then the instructions byte by byte. */
  method MakeCodeItem(regs: u16, ins: u16, outs: u16, insns: seq<u16>) returns (ci: seq<byte>)
    ensures ci == Item(regs, ins, outs, insns)
  {
    hide LE.Encode, LE.Splice, Asm.Bytes;
    ci := seq(16, i => 0);
    ci := LE.Splice(ci, 0, LE.Encode(regs, 2));
    ci := LE.Splice(ci, 2, LE.Encode(ins, 2));
    ci := LE.Splice(ci, 4, LE.Encode(outs, 2));
    ci := LE.Splice(ci, 6, LE.Encode(0, 2));
    ci := LE.Splice(ci, 8, LE.Encode(0, 4));
    ci := LE.Splice(ci, 12, LE.Encode(|insns| % TWO32, 4));
    ghost var h := HeadUnits(regs, ins, outs, |insns|);
    HeadBytes(ci, regs, ins, outs, |insns|);
    assert h + insns[..0] == h;
    for i := 0 to |insns|
      invariant ci == Asm.Bytes(h + insns[..i])
    {
      assert h + insns[..i + 1] == h + insns[..i] + [insns[i]];
      Asm.BytesAppend(h + insns[..i], [insns[i]]);
      OneUnit(insns[i]);
      ci := ci + [insns[i] % 256];
      ci := ci + [insns[i] / 256];
    }
    assert insns[..|insns|] == insns;
  }

  lemma OneUnit(v: u16)
    ensures Asm.Bytes([v]) == [v % 256, v / 256]
  {
  }

  /** A code item read back: the same sizes, and the same units where the reader says. */
  lemma ItemReadsBack(d: Image, off: u32, regs: u16, ins: u16, outs: u16, units: seq<u16>)
    requires 0 < off && At(d, off, Item(regs, ins, outs, units)) && |d| < TWO32
    ensures off + 16 < TWO32 && CodeAt(d, off) == Code(regs, ins, outs, off + 16, |units|, true)
    ensures At(d, off + 16, Asm.Bytes(units))
  {
    hide Asm.Bytes, Word16, Word32;
    var h := HeadUnits(regs, ins, outs, |units|);
    var u := h + units;
    Asm.BytesAppend(h, units);
    AtSplit(d, off, Asm.Bytes(h), Asm.Bytes(units));
    Sim.UnitInImage(d, off, u, 0);
    Sim.UnitInImage(d, off, u, 1);
    Sim.UnitInImage(d, off, u, 2);
    Sim.UnitInImage(d, off, u, 6);
    Sim.UnitInImage(d, off, u, 7);
    Sim.LongInImage(d, off + 12);
    assert |units| < TWO32 && |units| % TWO32 == |units|;
  }
}
