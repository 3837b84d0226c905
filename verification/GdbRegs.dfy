// Register packets: 'G' with what 'g' returned restores every register. A register
// is a little-endian integer of a fixed number of bytes (4, 8 or 16 in the tables).

module GdbRegs {
  import opened LittleEndian
  import opened GdbHex

  ghost predicate RegsOk(widths: seq<nat>, regs: seq<nat>) {
    |widths| == |regs| && forall i :: 0 <= i < |regs| ==> regs[i] < Pow256(widths[i])
  }

  function RegHex(v: nat, width: nat): (s: Text)
    ensures |s| == 2 * width
  {
    BytesToHex(Encode(v, width))
  }

  function RegFromHex(s: Text, width: nat): (v: nat)
    requires |s| == 2 * width
  {
    Decode(HexToBytes(s, width))
  }

  lemma RegRoundTrip(v: nat, width: nat)
    requires v < Pow256(width)
    ensures RegFromHex(RegHex(v, width), width) == v
  {
    hide Encode, Decode, BytesToHex, HexToBytes;
    HexRoundTrip(Encode(v, width));
    DecodeEncode(v, width);
  }

  function AllRegsHex(widths: seq<nat>, regs: seq<nat>): (s: Text)
    requires |widths| == |regs|
  {
    if regs == [] then [] else RegHex(regs[0], widths[0]) + AllRegsHex(widths[1..], regs[1..])
  }

  method ReadAllRegs(widths: seq<nat>, regs: seq<nat>) returns (s: Text)
    requires |widths| == |regs|
    ensures s == AllRegsHex(widths, regs)
  {
    hide RegHex;
    s := [];
    var i := 0;
    assert widths[0..] == widths && regs[0..] == regs;
    while i < |regs|
      invariant i <= |regs| && AllRegsHex(widths, regs) == s + AllRegsHex(widths[i..], regs[i..])
    {
      assert widths[i..][1..] == widths[i + 1..] && regs[i..][1..] == regs[i + 1..];
      s := s + RegHex(regs[i], widths[i]);
      i := i + 1;
    }
  }

  /** write_all_regs: registers in order for as long as the text has enough digits. */
  function Restore(widths: seq<nat>, regs: seq<nat>, hex: Text): (r: seq<nat>)
    requires |widths| == |regs|
    ensures |r| == |regs|
    decreases |regs|
  {
    if regs == [] || 2 * widths[0] > |hex| then regs
    else [RegFromHex(hex[..2 * widths[0]], widths[0])] + Restore(widths[1..], regs[1..], hex[2 * widths[0]..])
  }

  lemma RestoreStep(widths: seq<nat>, regs: seq<nat>, hex: Text, i: nat, off: nat)
    requires |widths| == |regs| && i < |regs| && off <= |hex|
    ensures var nib := 2 * widths[i];
      Restore(widths[i..], regs[i..], hex[off..]) ==
        if off + nib > |hex| then regs[i..]
        else [RegFromHex(hex[off..off + nib], widths[i])] + Restore(widths[i + 1..], regs[i + 1..], hex[off + nib..])
  {
    hide RegFromHex;
    var nib := 2 * widths[i];
    var ws, rs, h := widths[i..], regs[i..], hex[off..];
    assert ws[1..] == widths[i + 1..] && rs[1..] == regs[i + 1..];
    if off + nib <= |hex| {
      assert h[..nib] == hex[off..off + nib] && h[nib..] == hex[off + nib..];
    }
  }

  method WriteAllRegs(widths: seq<nat>, regs: seq<nat>, hex: Text) returns (r: seq<nat>)
    requires |widths| == |regs|
    ensures r == Restore(widths, regs, hex)
  {
    hide RegFromHex, Restore;
    var done: seq<nat> := [];
    var off: nat := 0;
    assert widths[0..] == widths && regs[0..] == regs && hex[0..] == hex;
    while |done| < |regs|
      invariant |done| <= |regs| && off <= |hex|
      invariant Restore(widths, regs, hex) == done + Restore(widths[|done|..], regs[|done|..], hex[off..])
    {
      var i := |done|;
      RestoreStep(widths, regs, hex, i, off);
      var nib := 2 * widths[i];
      if off + nib > |hex| { break; }
      done := done + [RegFromHex(hex[off..off + nib], widths[i])];
      off := off + nib;
    }
    if |done| == |regs| { RestoreNone(hex[off..]); }
    r := done + regs[|done|..];
  }

  lemma RestoreNone(hex: Text)
    ensures Restore([], [], hex) == []
  {
  }

  /** For every register file, and whatever the registers have become meanwhile,
      'G' of an earlier 'g' brings every register back. */
  lemma {:induction false} GAfterGRestores(widths: seq<nat>, saved: seq<nat>, now: seq<nat>, trailing: Text)
    requires RegsOk(widths, saved) && |now| == |saved|
    ensures Restore(widths, now, AllRegsHex(widths, saved) + trailing) == saved
    decreases |saved|
  {
    hide RegHex, RegFromHex;
    if saved != [] {
      var hex := AllRegsHex(widths, saved) + trailing;
      var first, rest := RegHex(saved[0], widths[0]), AllRegsHex(widths[1..], saved[1..]);
      assert hex == first + (rest + trailing);
      assert hex[..2 * widths[0]] == first && hex[2 * widths[0]..] == rest + trailing;
      RegRoundTrip(saved[0], widths[0]);
      assert forall i :: 0 <= i < |saved[1..]| ==> saved[1..][i] < Pow256(widths[1..][i]) by {
        forall i | 0 <= i < |saved[1..]| ensures saved[1..][i] < Pow256(widths[1..][i]) {
          assert saved[i + 1] < Pow256(widths[i + 1]);
        }
      }
      GAfterGRestores(widths[1..], saved[1..], now[1..], trailing);
      assert [saved[0]] + saved[1..] == saved;
    }
  }
}
