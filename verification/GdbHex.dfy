// Hex digits, byte strings in hex, and hex numbers as the debug stub reads them.

module GdbHex {
  import opened Common

  type Text = seq<byte>

  function HexDigit(v: nat): (c: byte)
    requires v < 16
  {
    if v < 10 then 0x30 + v else 0x61 + (v - 10)
  }

  predicate IsHexDigit(c: byte) {
    0x30 <= c <= 0x39 || 0x61 <= c <= 0x66 || 0x41 <= c <= 0x46
  }

  /** Anything that is no hex digit reads as zero. */
  function UnhexDigit(c: byte): (v: nat)
    ensures v < 16
  {
    if 0x30 <= c <= 0x39 then c - 0x30
    else if 0x61 <= c <= 0x66 then c - 0x61 + 10
    else if 0x41 <= c <= 0x46 then c - 0x41 + 10
    else 0
  }

  lemma DigitRoundTrip(v: nat)
    requires v < 16
    ensures IsHexDigit(HexDigit(v)) && UnhexDigit(HexDigit(v)) == v
  {
  }

  // ----- byte strings -----

  function BytesToHex(bs: seq<byte>): (s: Text)
    ensures |s| == 2 * |bs|
  {
    if bs == [] then [] else [HexDigit(bs[0] / 16), HexDigit(bs[0] % 16)] + BytesToHex(bs[1..])
  }

  function HexToBytes(s: Text, n: nat): (bs: seq<byte>)
    requires |s| == 2 * n
    ensures |bs| == n
  {
    if n == 0 then [] else [UnhexDigit(s[0]) * 16 + UnhexDigit(s[1])] + HexToBytes(s[2..], n - 1)
  }

  lemma {:induction false} HexRoundTrip(bs: seq<byte>)
    ensures HexToBytes(BytesToHex(bs), |bs|) == bs
  {
    if bs != [] {
      HexRoundTrip(bs[1..]);
      DigitRoundTrip(bs[0] / 16);
      DigitRoundTrip(bs[0] % 16);
      assert BytesToHex(bs)[2..] == BytesToHex(bs[1..]);
    }
  }

  // ----- numbers -----

  datatype Number = Number(value: u64, pos: nat)

  /** parse_hex_u64: digits from i on, keeping the low 64 bits. */
  function ParseFrom(s: Text, i: nat, v: u64): (r: Number)
    requires i <= |s|
    ensures i <= r.pos <= |s|
    decreases |s| - i
  {
    if i < |s| && IsHexDigit(s[i]) then ParseFrom(s, i + 1, (v * 16 + UnhexDigit(s[i])) % TWO64) else Number(v, i)
  }

  function ParseHex(s: Text, i: nat): (r: Number)
    requires i <= |s|
    ensures i <= r.pos <= |s|
  {
    ParseFrom(s, i, 0)
  }

  /** A number in hex without leading zeros. */
  function HexOf(v: nat): (s: Text)
    ensures |s| >= 1
  {
    if v < 16 then [HexDigit(v)] else HexOf(v / 16) + [HexDigit(v % 16)]
  }

  lemma AtPrefix(s: Text, p: nat, t: Text, c: byte)
    requires At(s, p, t + [c])
    ensures At(s, p, t) && s[p + |t|] == c
  {
    assert s[p..p + |t|] == s[p..p + |t| + 1][..|t|];
    assert s[p + |t|] == s[p..p + |t| + 1][|t|];
  }

  lemma ParseStep(s: Text, i: nat, v: u64, d: nat)
    requires i < |s| && d < 16 && s[i] == HexDigit(d) && v * 16 + d < TWO64
    ensures ParseFrom(s, i, v) == ParseFrom(s, i + 1, v * 16 + d)
  {
    hide UnhexDigit, HexDigit, IsHexDigit;
    DigitRoundTrip(d);
  }

  // Reading the digits of v brings the accumulator to v, whatever follows.
  lemma {:induction false} ParseDigits(s: Text, i: nat, v: nat)
    requires v < TWO64 && At(s, i, HexOf(v))
    ensures ParseHex(s, i) == ParseFrom(s, i + |HexOf(v)|, v)
    decreases v
  {
    hide HexDigit, ParseFrom;
    if v < 16 {
      assert s[i] == HexOf(v)[0];
      ParseStep(s, i, 0, v);
    } else {
      var d := HexOf(v / 16);
      AtPrefix(s, i, d, HexDigit(v % 16));
      ParseDigits(s, i, v / 16);
      ParseStep(s, i + |d|, v / 16, v % 16);
    }
  }

  /** Every 64-bit number in hex reads back, up to the first non-digit. */
  lemma ParseRoundTrip(s: Text, i: nat, v: nat)
    requires v < TWO64 && At(s, i, HexOf(v))
    requires i + |HexOf(v)| == |s| || !IsHexDigit(s[i + |HexOf(v)|])
    ensures ParseHex(s, i) == Number(v, i + |HexOf(v)|)
  {
    ParseDigits(s, i, v);
  }
}
