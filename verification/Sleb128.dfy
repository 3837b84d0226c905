// Signed LEB128 as the packed-relocation reader decodes it: 64-bit two's
// complement, at most ten bytes. The shift is 7 times the byte number k, so the
// weight of byte k is 128^k, and 128^9 is 2^63.

module Sleb128 {
  import opened Common

  function Weight(k: nat): (w: nat)
    ensures w > 0
  {
    if k == 0 then 1 else 128 * Weight(k - 1)
  }

  function Unsigned(v: int): (u: int) {
    if v < 0 then v + TWO64 else v
  }

  function Signed(u: u64): (v: int)
    ensures -TWO64 / 2 <= v < TWO64 / 2 && Unsigned(v) == u
  {
    if u < TWO64 / 2 then u else u - TWO64
  }

  datatype Cursor = Cursor(value: u64, pos: nat)

  /** The reader's loop from byte k on. None where the C++ reads past the buffer or
      shifts by 64 or more. */
  function ReadFrom(buf: seq<byte>, p: nat, k: nat, acc: u64): (r: Option<Cursor>)
    ensures r.Some? ==> p < r.value.pos <= |buf|
    decreases |buf| - p
  {
    if p >= |buf| || k > 9 then None
    else
      var b := buf[p];
      var acc' := (acc + b % 128 * Weight(k)) % TWO64;
      if b >= 128 then ReadFrom(buf, p + 1, k + 1, acc')
      else if k + 1 <= 9 && b % 128 >= 64 then Some(Cursor((acc' + (TWO64 - Weight(k + 1)) % TWO64) % TWO64, p + 1))
      else Some(Cursor(acc', p + 1))
  }

  function Read(buf: seq<byte>, p: nat): (r: Option<Cursor>)
    ensures r.Some? ==> p < r.value.pos <= |buf|
  {
    ReadFrom(buf, p, 0, 0)
  }

  /** The shortest encoding. */
  function Write(v: int): (bs: seq<byte>)
    ensures |bs| >= 1
    decreases if v < 0 then -v else v
  {
    if -64 <= v < 64 then [v % 128] else [v % 128 + 128] + Write(v / 128)
  }

  lemma Weights()
    ensures Weight(0) == 1 && Weight(1) == 0x80 && Weight(2) == 0x4000 && Weight(3) == 0x20_0000
    ensures Weight(4) == 0x1000_0000 && Weight(5) == 0x8_0000_0000 && Weight(6) == 0x400_0000_0000
    ensures Weight(7) == 0x2_0000_0000_0000 && Weight(8) == 0x100_0000_0000_0000 && Weight(9) == TWO64 / 2
  {
  }

  lemma WeightsSplit(k: nat)
    requires k <= 9
    ensures Weight(k) * Weight(9 - k) == TWO64 / 2 && Weight(k) <= TWO64 / 2
  {
    hide Weight;
    Weights();
    if k == 0 || k == 1 || k == 2 || k == 3 || k == 4 {
    } else {
      assert k == 5 || k == 6 || k == 7 || k == 8 || k == 9;
    }
  }

  /** The value still to be encoded fits what is left of 64 bits. */
  predicate Fits(v: int, k: nat)
    requires k <= 9
  {
    0 - Weight(9 - k) <= v < Weight(9 - k)
  }

  lemma LowPart(acc: nat, low: nat, w: nat)
    requires acc < w && low < 128
    ensures acc + low * w < 128 * w
  {
    assert (127 - low) * w >= 0;
  }

  // One byte accumulates without overflow, except for the last one.
  lemma Accumulates(acc: nat, low: nat, k: nat)
    requires k <= 8 && acc < Weight(k) && low < 128
    ensures acc + low * Weight(k) < Weight(k + 1) <= TWO64 / 2
    ensures (acc + low * Weight(k)) % TWO64 == acc + low * Weight(k)
  {
    LowPart(acc, low, Weight(k));
    WeightsSplit(k + 1);
  }

  /** The reader answers v at the given place and stops behind it. */
  predicate Yields(r: Option<Cursor>, v: int, pos: nat) {
    r.Some? && r.value.value == Unsigned(v) && r.value.pos == pos
  }

  lemma NegativeLow(v: int, w: nat)
    requires -64 <= v < 0
    ensures v % 128 == v + 128 && v % 128 * w == v * w + 128 * w
  {
    assert (v + 128) * w == v * w + 128 * w;
  }

  lemma SignExtend(s: nat, w: nat)
    requires s < w <= TWO64 / 2
    ensures (s + (TWO64 - w) % TWO64) % TWO64 == s - w + TWO64
  {
  }

  // What the reader makes of a final byte that accumulates to s.
  lemma StopsAt(buf: seq<byte>, p: nat, k: nat, acc: u64, s: nat)
    requires k <= 8 && p < |buf| && buf[p] < 128
    requires (acc + buf[p] % 128 * Weight(k)) % TWO64 == s
    requires s < Weight(k + 1) <= TWO64 / 2
    ensures Yields(ReadFrom(buf, p, k, acc), if buf[p] >= 64 then s - Weight(k + 1) else s, p + 1)
  {
    hide Weight;
    SignExtend(s, Weight(k + 1));
  }

  lemma LastByte(buf: seq<byte>, p: nat, k: nat, acc: u64, v: int)
    requires k <= 8 && acc < Weight(k) && -64 <= v < 64
    requires p < |buf| && buf[p] == v % 128
    ensures Yields(ReadFrom(buf, p, k, acc), acc + v * Weight(k), p + 1)
  {
    hide Weight, ReadFrom, Yields;
    Accumulates(acc, v % 128, k);
    StopsAt(buf, p, k, acc, acc + v % 128 * Weight(k));
    WeightStep(k);
    if v < 0 { NegativeLow(v, Weight(k)); }
  }

  lemma TenthByte(buf: seq<byte>, p: nat, acc: u64, v: int)
    requires acc < Weight(9) && -1 <= v < 1
    requires p < |buf| && buf[p] == v % 128
    ensures Yields(ReadFrom(buf, p, 9, acc), acc + v * Weight(9), p + 1)
  {
    hide Weight;
    Weights();
    var w := Weight(9);
    if v == 0 {
      assert v % 128 * w == 0 && v * w == 0;
    } else {
      assert v % 128 == 127;
      assert (acc + 127 * w) % TWO64 == acc + w;
    }
  }

  lemma NextByte(v: int, k: nat)
    requires k <= 9 && Fits(v, k) && !(-64 <= v < 64)
    ensures k <= 8 && Fits(v / 128, k + 1)
  {
    assert Weight(0) == 1;
    if k < 9 {
      assert Weight(9 - k) == 128 * Weight(8 - k);
    }
  }

  lemma {:induction false} ReadWriteFrom(buf: seq<byte>, p: nat, k: nat, acc: u64, v: int)
    requires k <= 9 && acc < Weight(k) && Fits(v, k)
    requires p + |Write(v)| <= |buf| && buf[p..p + |Write(v)|] == Write(v)
    ensures Yields(ReadFrom(buf, p, k, acc), acc + v * Weight(k), p + |Write(v)|)
    decreases 10 - k
  {
    InRange(acc, v, k);
    assert buf[p] == Write(v)[0];
    if -64 <= v < 64 {
      if k == 9 {
        assert Weight(0) == 1;
        TenthByte(buf, p, acc, v);
      } else {
        LastByte(buf, p, k, acc, v);
      }
    } else {
      ReadWriteNext(buf, p, k, acc, v);
    }
  }

  lemma ReadOn(buf: seq<byte>, p: nat, k: nat, acc: u64, next: u64)
    requires k <= 9 && p < |buf| && buf[p] >= 128 && (acc + buf[p] % 128 * Weight(k)) % TWO64 == next
    ensures ReadFrom(buf, p, k, acc) == ReadFrom(buf, p + 1, k + 1, next)
  {
    hide Weight;
  }

  lemma WriteOn(v: int)
    requires !(-64 <= v < 64)
    ensures Write(v) == [v % 128 + 128] + Write(v / 128)
  {
  }

  lemma {:induction false} ReadWriteNext(buf: seq<byte>, p: nat, k: nat, acc: u64, v: int)
    requires k <= 9 && acc < Weight(k) && Fits(v, k) && !(-64 <= v < 64)
    requires p + |Write(v)| <= |buf| && buf[p..p + |Write(v)|] == Write(v)
    ensures Yields(ReadFrom(buf, p, k, acc), acc + v * Weight(k), p + |Write(v)|)
    decreases 10 - k, 0
  {
    hide Weight, Fits, ReadFrom, Write, Yields;
    NextByte(v, k);
    var low := v % 128;
    Accumulates(acc, low, k);
    WriteOn(v);
    assert buf[p] == Write(v)[0];
    assert buf[p + 1..p + 1 + |Write(v / 128)|] == buf[p..p + |Write(v)|][1..];
    assert buf[p] % 128 == low;
    ReadOn(buf, p, k, acc, acc + low * Weight(k));
    ReadWriteFrom(buf, p + 1, k + 1, acc + low * Weight(k), v / 128);
    WeightStep(k);
    Regroup(acc, v, Weight(k));
  }

  lemma WeightStep(k: nat)
    ensures Weight(k + 1) == 128 * Weight(k)
  {
  }

  lemma Regroup(acc: nat, v: int, w: nat)
    ensures acc + v % 128 * w + v / 128 * (128 * w) == acc + v * w
  {
    var q, r := v / 128, v % 128;
    assert v == 128 * q + r;
    assert (128 * q + r) * w == q * (128 * w) + r * w;
  }

  lemma TimesLe(a: int, b: int, w: nat)
    requires a <= b
    ensures a * w <= b * w
  {
    assert (b - a) * w >= 0;
  }

  lemma InRange(acc: nat, v: int, k: nat)
    requires k <= 9 && acc < Weight(k) && Fits(v, k)
    ensures -TWO64 / 2 <= acc + v * Weight(k) < TWO64 / 2
  {
    hide Weight;
    WeightsSplit(k);
    var w: nat, m: int := Weight(k), Weight(9 - k);
    TimesLe(0 - m, v, w);
    TimesLe(v, m - 1, w);
    assert (m - 1) * w == w * m - w && (0 - m) * w == 0 - w * m;
  }

  /** Round trip: for every 64-bit value, at every place in every stream. */
  lemma ReadWrite(buf: seq<byte>, p: nat, v: int)
    requires -TWO64 / 2 <= v < TWO64 / 2
    requires p + |Write(v)| <= |buf| && buf[p..p + |Write(v)|] == Write(v)
    ensures Yields(Read(buf, p), v, p + |Write(v)|)
  {
    Weights();
    ReadWriteFrom(buf, p, 0, 0, v);
  }
}
