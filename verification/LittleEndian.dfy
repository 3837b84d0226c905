// Fixed-width little-endian integers and words inside a byte image.

module LittleEndian {
  import opened Common

  function Pow256(n: nat): (p: nat)
    ensures p > 0
  {
    if n == 0 then 1 else 256 * Pow256(n - 1)
  }

  function Encode(v: nat, n: nat): (bs: seq<byte>)
    ensures |bs| == n
  {
    if n == 0 then [] else [v % 256] + Encode(v / 256, n - 1)
  }

  function Decode(bs: seq<byte>): (v: nat) {
    if bs == [] then 0 else bs[0] + 256 * Decode(bs[1..])
  }

  lemma {:induction false} DecodeBound(bs: seq<byte>)
    ensures Decode(bs) < Pow256(|bs|)
  {
    if bs != [] { DecodeBound(bs[1..]); }
  }

  lemma {:induction false} DecodeEncode(v: nat, n: nat)
    requires v < Pow256(n)
    ensures Decode(Encode(v, n)) == v
  {
    if n > 0 {
      DecodeEncode(v / 256, n - 1);
      assert Encode(v, n)[1..] == Encode(v / 256, n - 1);
    }
  }

  /** Different bytes are different numbers. */
  lemma {:induction false} DecodeInjective(a: seq<byte>, b: seq<byte>)
    requires |a| == |b| && Decode(a) == Decode(b)
    ensures a == b
  {
    if a != [] {
      FirstByte(a);
      FirstByte(b);
      DecodeInjective(a[1..], b[1..]);
      assert a == [a[0]] + a[1..] && b == [b[0]] + b[1..];
    }
  }

  lemma FirstByte(bs: seq<byte>)
    requires bs != []
    ensures Decode(bs) % 256 == bs[0] && Decode(bs) / 256 == Decode(bs[1..])
  {
    var rest := Decode(bs[1..]);
    assert Decode(bs) == bs[0] + 256 * rest;
  }

  lemma Widths()
    ensures Pow256(1) == 0x100 && Pow256(2) == TWO16 && Pow256(4) == TWO32 && Pow256(8) == TWO64
  {
    assert Pow256(3) == 0x100_0000 && Pow256(5) == 0x100_0000_0000 && Pow256(6) == 0x1_0000_0000_0000;
  }

  // ----- words in an image -----

  predicate InImage(d: seq<byte>, a: int, n: nat) {
    0 <= a && a + n <= |d|
  }

  function Splice(d: seq<byte>, a: nat, bs: seq<byte>): (r: seq<byte>)
    requires InImage(d, a, |bs|)
    ensures |r| == |d|
    ensures r[a..a + |bs|] == bs
    ensures forall i :: 0 <= i < a || a + |bs| <= i < |d| ==> r[i] == d[i]
  {
    d[..a] + bs + d[a + |bs|..]
  }

  function Word64(d: seq<byte>, a: nat): (v: u64)
    requires InImage(d, a, 8)
  {
    Widths();
    DecodeBound(d[a..a + 8]);
    Decode(d[a..a + 8])
  }

  function Put64(d: seq<byte>, a: nat, v: u64): (r: seq<byte>)
    requires InImage(d, a, 8)
    ensures |r| == |d|
    ensures forall i :: 0 <= i < a || a + 8 <= i < |d| ==> r[i] == d[i]
  {
    Splice(d, a, Encode(v, 8))
  }

  lemma GetPut64(d: seq<byte>, a: nat, v: u64)
    requires InImage(d, a, 8)
    ensures Word64(Put64(d, a, v), a) == v
  {
    Widths();
    DecodeEncode(v, 8);
  }

  // A write elsewhere does not change what is read here.
  lemma SliceFrame(d: seq<byte>, e: seq<byte>, a: nat, n: nat)
    requires |d| == |e| && a + n <= |d|
    requires forall i :: a <= i < a + n ==> d[i] == e[i]
    ensures d[a..a + n] == e[a..a + n]
  {
  }

  // ----- byte by byte -----

  function Byte(d: seq<byte>, i: nat): nat
    requires i < |d|
  {
    d[i]
  }

  lemma DecodeAt(d: seq<byte>, a: nat, n: nat)
    requires a + n <= |d|
    ensures Decode(d[a..a + n]) == if n == 0 then 0 else Byte(d, a) + 256 * Decode(d[a + 1..a + n])
  {
    if n > 0 { assert d[a..a + n][1..] == d[a + 1..a + n]; }
  }
}
