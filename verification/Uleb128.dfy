// Unsigned LEB128 (Dalvik Executable format, "LEB128"), read by two readers written
// separately: the parser stops after five bytes, the rebuilder only at the end of
// the file. On well-formed numbers they agree.

module Uleb128 {
  import opened Common

  /** 2 to the power 7k. */
  function Weight(k: nat): (w: nat)
    requires k < 5
    ensures w > 0
  {
    if k == 0 then 1 else if k == 1 then 0x80 else if k == 2 then 0x4000 else if k == 3 then 0x20_0000 else 0x1000_0000
  }

  /** How much of a 32-bit number can still follow after k bytes. */
  function Cap(k: nat): (c: nat)
    requires k < 5
    ensures c > 0
  {
    if k == 0 then TWO32 else if k == 1 then 0x200_0000 else if k == 2 then 0x4_0000 else if k == 3 then 0x800 else 0x10
  }

  /** v << 7k, before truncation. */
  function Shifted(v: nat, k: nat): (r: nat)
    requires k < 5
  {
    v * Weight(k)
  }

  datatype Num = Num(value: u32, pos: nat)

  /** The parser's reader from byte k on. */
  function ReadFrom(d: seq<byte>, p: nat, k: nat, acc: u32): (r: Num)
    requires k <= 5
    ensures p <= r.pos
    decreases 5 - k
  {
    if k == 5 || p >= |d| then Num(acc, p)
    else
      var acc' := (acc + Shifted(d[p] % 128, k)) % TWO32;
      if d[p] < 128 then Num(acc', p + 1) else ReadFrom(d, p + 1, k + 1, acc')
  }

  function Read(d: seq<byte>, p: nat): (r: Num)
    ensures p <= r.pos
  {
    ReadFrom(d, p, 0, 0)
  }

  /** The rebuilder's reader from byte k on. Bits shifted by 32 or more are dropped. */
  function ScanFrom(d: seq<byte>, p: nat, k: nat, acc: u32): (r: Num)
    ensures p <= r.pos
    decreases |d| - p
  {
    if p >= |d| then Num(acc, p)
    else
      var acc' := if k < 5 then (acc + Shifted(d[p] % 128, k)) % TWO32 else acc;
      if d[p] < 128 then Num(acc', p + 1) else ScanFrom(d, p + 1, k + 1, acc')
  }

  function Scan(d: seq<byte>, p: nat): (r: Num)
    ensures p <= r.pos
  {
    ScanFrom(d, p, 0, 0)
  }

  /** A number that ends within five bytes and within the file. */
  predicate OkFrom(d: seq<byte>, p: nat, k: nat)
    decreases 5 - k
  {
    k < 5 && p < |d| && (d[p] < 128 || OkFrom(d, p + 1, k + 1))
  }

  predicate Ok(d: seq<byte>, p: nat) { OkFrom(d, p, 0) }

  lemma {:induction false} ReadersAgreeFrom(d: seq<byte>, p: nat, k: nat, acc: u32)
    requires k <= 5 && OkFrom(d, p, k)
    ensures ScanFrom(d, p, k, acc) == ReadFrom(d, p, k, acc)
    ensures p < ReadFrom(d, p, k, acc).pos <= |d|
    decreases 5 - k
  {
    hide Shifted;
    if d[p] >= 128 { ReadersAgreeFrom(d, p + 1, k + 1, (acc + Shifted(d[p] % 128, k)) % TWO32); }
  }

  /** The two readers agree on every well-formed number. */
  lemma ReadersAgree(d: seq<byte>, p: nat)
    requires Ok(d, p)
    ensures Scan(d, p) == Read(d, p) && p < Read(d, p).pos <= |d|
  {
    ReadersAgreeFrom(d, p, 0, 0);
  }

  // A number is read the same from any file that agrees on its bytes.
  lemma {:induction false} FrameFrom(d: seq<byte>, e: seq<byte>, p: nat, k: nat, acc: u32)
    requires k <= 5 && OkFrom(d, p, k) && |d| <= |e|
    requires forall i :: p <= i < ReadFrom(d, p, k, acc).pos && i < |d| ==> e[i] == d[i]
    ensures OkFrom(e, p, k) && ReadFrom(e, p, k, acc) == ReadFrom(d, p, k, acc)
    decreases 5 - k
  {
    hide Shifted;
    if d[p] >= 128 { FrameFrom(d, e, p + 1, k + 1, (acc + Shifted(d[p] % 128, k)) % TWO32); }
  }

  lemma Frame(d: seq<byte>, e: seq<byte>, p: nat)
    requires Ok(d, p) && |d| <= |e|
    requires forall i :: p <= i < Read(d, p).pos && i < |d| ==> e[i] == d[i]
    ensures Ok(e, p) && Read(e, p) == Read(d, p)
  {
    FrameFrom(d, e, p, 0, 0);
  }

  // ----- writing -----

  function Write(v: nat): (bs: seq<byte>)
    ensures |bs| >= 1
  {
    if v < 128 then [v] else [v % 128 + 128] + Write(v / 128)
  }

  method WriteUleb(out0: seq<byte>, v0: u32) returns (out: seq<byte>)
    ensures out == out0 + Write(v0)
  {
    out := out0;
    var v := v0;
    var more := true;
    while more
      invariant 0 <= v && out0 + Write(v0) == if more then out + Write(v) else out
      decreases more, v
    {
      var x := v % 128;
      v := v / 128;
      if v != 0 { x := x + 128; } else { more := false; }
      out := out + [x];
    }
  }

  lemma Accumulates(k: nat, acc: nat, v: nat)
    requires k < 5 && acc < Weight(k) && v < Cap(k)
    ensures acc + Shifted(v % 128, k) < TWO32 && (acc + Shifted(v % 128, k)) % TWO32 == acc + Shifted(v % 128, k)
    ensures v < 128 ==> acc + Shifted(v % 128, k) == acc + Shifted(v, k)
    ensures v >= 128 ==> k < 4
    ensures v >= 128 ==> v / 128 < Cap(k + 1) && acc + Shifted(v % 128, k) < Weight(k + 1)
    ensures v >= 128 ==> acc + Shifted(v % 128, k) + Shifted(v / 128, k + 1) == acc + Shifted(v, k)
  {
    if k == 0 {
    } else if k == 1 {
    } else if k == 2 {
    } else if k == 3 {
    }
  }

  lemma AtHead(d: seq<byte>, p: nat, x: byte, rest: seq<byte>)
    requires At(d, p, [x] + rest)
    ensures p < |d| && d[p] == x && At(d, p + 1, rest)
  {
    var all := [x] + rest;
    assert d[p] == d[p..p + |all|][0];
    assert d[p + 1..p + 1 + |rest|] == d[p..p + |all|][1..];
  }

  // One step of the reader on a byte that accumulates without overflow to s.
  lemma ReadStep(d: seq<byte>, p: nat, k: nat, acc: u32, low: nat, s: u32)
    requires k < 5 && p < |d| && d[p] % 128 == low && (acc + Shifted(low, k)) % TWO32 == s
    ensures d[p] < 128 ==> OkFrom(d, p, k) && ReadFrom(d, p, k, acc) == Num(s, p + 1)
    ensures d[p] >= 128 ==> ReadFrom(d, p, k, acc) == ReadFrom(d, p + 1, k + 1, s)
    ensures d[p] >= 128 ==> OkFrom(d, p, k) == OkFrom(d, p + 1, k + 1)
  {
    hide Shifted;
  }

  lemma {:induction false} ReadWriteFrom(d: seq<byte>, p: nat, k: nat, acc: u32, v: nat)
    requires k < 5 && acc < Weight(k) && v < Cap(k) && At(d, p, Write(v))
    ensures OkFrom(d, p, k)
    ensures var r := ReadFrom(d, p, k, acc); r.value == acc + Shifted(v, k) && r.pos == p + |Write(v)|
    decreases v
  {
    hide Weight, Cap, At, Shifted, ReadFrom, OkFrom;
    Accumulates(k, acc, v);
    if v < 128 {
      assert Write(v) == [v] + [];
      AtHead(d, p, v, []);
      ReadStep(d, p, k, acc, v % 128, acc + Shifted(v % 128, k));
    } else {
      AtHead(d, p, v % 128 + 128, Write(v / 128));
      ReadStep(d, p, k, acc, v % 128, acc + Shifted(v % 128, k));
      ReadWriteFrom(d, p + 1, k + 1, acc + Shifted(v % 128, k), v / 128);
    }
  }

  /** Round trip for every 32-bit number, anywhere in a file. */
  lemma ReadWrite(d: seq<byte>, p: nat, v: u32)
    requires At(d, p, Write(v))
    ensures Ok(d, p) && Read(d, p) == Num(v, p + |Write(v)|)
  {
    ReadWriteFrom(d, p, 0, 0, v);
  }

  // ----- runs of numbers -----

  datatype Nums = Nums(vals: seq<u32>, pos: nat)

  function ReadN(d: seq<byte>, p: nat, n: nat): (r: Nums)
    ensures |r.vals| == n && p <= r.pos
    decreases n
  {
    if n == 0 then Nums([], p)
    else
      var first := Read(d, p);
      var rest := ReadN(d, first.pos, n - 1);
      Nums([first.value] + rest.vals, rest.pos)
  }

  function ScanN(d: seq<byte>, p: nat, n: nat): (r: Nums)
    ensures |r.vals| == n && p <= r.pos
    decreases n
  {
    if n == 0 then Nums([], p)
    else
      var first := Scan(d, p);
      var rest := ScanN(d, first.pos, n - 1);
      Nums([first.value] + rest.vals, rest.pos)
  }

  predicate OkN(d: seq<byte>, p: nat, n: nat)
    decreases n
  {
    n == 0 || (Ok(d, p) && OkN(d, Read(d, p).pos, n - 1))
  }

  function WriteN(vals: seq<u32>): (bs: seq<byte>) {
    if vals == [] then [] else Write(vals[0]) + WriteN(vals[1..])
  }

  lemma {:induction false} ReadersAgreeN(d: seq<byte>, p: nat, n: nat)
    requires OkN(d, p, n)
    ensures ScanN(d, p, n) == ReadN(d, p, n) && (p <= |d| ==> ReadN(d, p, n).pos <= |d|)
    decreases n
  {
    hide Read, Scan, Ok;
    if n > 0 {
      ReadersAgree(d, p);
      ReadersAgreeN(d, Read(d, p).pos, n - 1);
    }
  }

  lemma {:induction false} FrameN(d: seq<byte>, e: seq<byte>, p: nat, n: nat)
    requires OkN(d, p, n) && |d| <= |e|
    requires forall i :: p <= i < ReadN(d, p, n).pos && i < |d| ==> e[i] == d[i]
    ensures OkN(e, p, n) && ReadN(e, p, n) == ReadN(d, p, n)
    decreases n
  {
    hide Read, Scan, Ok;
    if n > 0 {
      Frame(d, e, p);
      FrameN(d, e, Read(d, p).pos, n - 1);
    }
  }

  lemma {:induction false} ReadWriteN(d: seq<byte>, p: nat, vals: seq<u32>)
    requires At(d, p, WriteN(vals))
    ensures OkN(d, p, |vals|) && ReadN(d, p, |vals|) == Nums(vals, p + |WriteN(vals)|)
    decreases |vals|
  {
    hide Read, Ok, At, Write;
    if vals != [] {
      AtSplit(d, p, Write(vals[0]), WriteN(vals[1..]));
      ReadWrite(d, p, vals[0]);
      ReadWriteN(d, p + |Write(vals[0])|, vals[1..]);
      assert [vals[0]] + vals[1..] == vals;
    }
  }

  lemma ReadNUnfold(d: seq<byte>, p: nat, n: nat)
    ensures var first := Read(d, p);
      var rest := ReadN(d, first.pos, n);
      ReadN(d, p, n + 1) == Nums([first.value] + rest.vals, rest.pos)
      && (OkN(d, p, n + 1) <==> Ok(d, p) && OkN(d, first.pos, n))
  {
    hide Read, Ok;
  }

  lemma ReadNone(d: seq<byte>, p: nat)
    ensures ReadN(d, p, 0) == Nums([], p) && OkN(d, p, 0)
  {
  }

  lemma {:induction false} ReadNSplit(d: seq<byte>, p: nat, n: nat, m: nat)
    ensures var a := ReadN(d, p, n);
      ReadN(d, p, n + m) == Nums(a.vals + ReadN(d, a.pos, m).vals, ReadN(d, a.pos, m).pos)
    ensures OkN(d, p, n + m) <==> OkN(d, p, n) && OkN(d, ReadN(d, p, n).pos, m)
    decreases n
  {
    hide Read, Ok, ReadN, OkN;
    if n > 0 {
      ReadNUnfold(d, p, n - 1);
      ReadNUnfold(d, p, n - 1 + m);
      ReadNSplit(d, Read(d, p).pos, n - 1, m);
    } else {
      ReadNone(d, p);
      assert [] + ReadN(d, p, m).vals == ReadN(d, p, m).vals;
    }
  }

  lemma ScanNone(d: seq<byte>, p: nat)
    ensures ScanN(d, p, 0) == Nums([], p)
  {
  }

  lemma ScanNUnfold(d: seq<byte>, p: nat, n: nat)
    ensures var first := Scan(d, p);
      var rest := ScanN(d, first.pos, n);
      ScanN(d, p, n + 1) == Nums([first.value] + rest.vals, rest.pos)
  {
    hide Scan;
  }

  lemma {:induction false} ScanNSplit(d: seq<byte>, p: nat, n: nat, m: nat)
    ensures var a := ScanN(d, p, n);
      ScanN(d, p, n + m) == Nums(a.vals + ScanN(d, a.pos, m).vals, ScanN(d, a.pos, m).pos)
    decreases n
  {
    hide Scan, ScanN;
    if n > 0 {
      ScanNUnfold(d, p, n - 1);
      ScanNUnfold(d, p, n - 1 + m);
      ScanNSplit(d, Scan(d, p).pos, n - 1, m);
    } else {
      ScanNone(d, p);
      assert [] + ScanN(d, p, m).vals == ScanN(d, p, m).vals;
    }
  }

  lemma {:induction false} WriteNConcat(a: seq<u32>, b: seq<u32>)
    ensures WriteN(a + b) == WriteN(a) + WriteN(b)
  {
    hide Write;
    if a == [] {
      assert a + b == b;
    } else {
      assert (a + b)[1..] == a[1..] + b;
      WriteNConcat(a[1..], b);
    }
  }
}
