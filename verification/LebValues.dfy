// What a LEB128 number is: seven-bit digits, the least significant first, all bytes but the
// last with the top bit set; the signed form takes its sign from bit 6 of the last byte.

module LebValues {
  import opened Common
  import S = Sleb128
  import U = Uleb128

  /** The number whose base-128 digits these are. */
  function Digits(bs: seq<byte>): nat {
    if bs == [] then 0 else var low: nat := bs[0] % 128; low + 128 * Digits(bs[1..])
  }

  /** A number of n bytes starts here. */
  ghost predicate NumberAt(d: seq<byte>, p: nat, n: nat) {
    && n > 0 && p + n <= |d| && d[p + n - 1] < 128
    && forall i :: p <= i < p + n - 1 ==> d[i] >= 128
  }

  lemma NumberTail(d: seq<byte>, p: nat, n: nat)
    requires NumberAt(d, p, n) && n > 1
    ensures NumberAt(d, p + 1, n - 1) && d[p] >= 128
    ensures var low: nat := d[p] % 128; Digits(d[p..p + n]) == low + 128 * Digits(d[p + 1..p + n])
  {
    assert d[p..p + n][1..] == d[p + 1..p + n];
  }

  lemma LastDigit(d: seq<byte>, p: nat)
    requires NumberAt(d, p, 1)
    ensures var b: nat := d[p]; Digits(d[p..p + 1]) == b
  {
    assert d[p..p + 1][1..] == [];
  }

  lemma OneMore(acc: int, low: int, w: int, rest: int)
    ensures acc + w * (low + 128 * rest) == acc + low * w + 128 * w * rest
  {
    assert w * (low + 128 * rest) == w * low + w * (128 * rest);
    assert w * (128 * rest) == 128 * w * rest;
  }

  // ----- signed -----

  lemma {:induction false} SignedFrom(d: seq<byte>, p: nat, k: nat, acc: u64, n: nat)
    requires NumberAt(d, p, n) && k + n <= 9 && acc < S.Weight(k)
    ensures var sign := if d[p + n - 1] >= 64 then S.Weight(k + n) else 0;
      S.Yields(S.ReadFrom(d, p, k, acc), acc + S.Weight(k) * Digits(d[p..p + n]) - sign, p + n)
    decreases n
  {
    hide S.Weight, S.Yields, Digits, S.ReadFrom;
    var low, w: nat := d[p] % 128, S.Weight(k);
    S.Accumulates(acc, low, k);
    if n == 1 {
      LastDigit(d, p);
      S.StopsAt(d, p, k, acc, acc + low * w);
      assert w * low == low * w;
    } else {
      NumberTail(d, p, n);
      SignedOn(d, p, k, acc);
      SignedFrom(d, p + 1, k + 1, acc + low * w, n - 1);
      S.WeightStep(k);
      OneMore(acc, low, w, Digits(d[p + 1..p + n]));
    }
  }

  lemma SignedOn(d: seq<byte>, p: nat, k: nat, acc: u64)
    requires p < |d| && k <= 9 && d[p] >= 128
    ensures S.ReadFrom(d, p, k, acc) == S.ReadFrom(d, p + 1, k + 1, (acc + d[p] % 128 * S.Weight(k)) % TWO64)
  {
    hide S.Weight;
  }

  /** A signed number of up to nine bytes: its digits, less 128 to the number of bytes when
      the last byte says it is negative. */
  lemma SignedValue(d: seq<byte>, p: nat, n: nat)
    requires NumberAt(d, p, n) && n <= 9
    ensures S.Read(d, p).Some? && S.Read(d, p).value.pos == p + n
    ensures S.Signed(S.Read(d, p).value.value) ==
      Digits(d[p..p + n]) - (if d[p + n - 1] >= 64 then S.Weight(n) else 0)
  {
    hide Digits, S.ReadFrom, S.Weight;
    assert S.Weight(0) == 1 by { S.Weights(); }
    SignedFrom(d, p, 0, 0, n);
    DigitsBelow(d, p, n);
    S.WeightsSplit(n);
    var v := Digits(d[p..p + n]) - (if d[p + n - 1] >= 64 then S.Weight(n) else 0);
    assert S.Yields(S.Read(d, p), v, p + n);
  }

  lemma {:induction false} DigitsBelow(d: seq<byte>, p: nat, n: nat)
    requires NumberAt(d, p, n)
    ensures Digits(d[p..p + n]) < S.Weight(n)
    decreases n
  {
    hide Digits;
    if n == 1 {
      LastDigit(d, p);
      assert S.Weight(1) == 128 * S.Weight(0);
    } else {
      NumberTail(d, p, n);
      DigitsBelow(d, p + 1, n - 1);
    }
  }

  lemma {:induction false} TenFrom(d: seq<byte>, p: nat, k: nat, acc: u64, n: nat)
    requires NumberAt(d, p, n) && k + n == 10 && acc < S.Weight(k)
    ensures S.ReadFrom(d, p, k, acc) == Some(S.Cursor((acc + S.Weight(k) * Digits(d[p..p + n])) % TWO64, p + n))
    decreases n
  {
    hide S.Weight, Digits, S.ReadFrom;
    var low, w: nat := d[p] % 128, S.Weight(k);
    if n == 1 {
      LastDigit(d, p);
      TenthEnds(d, p, acc);
      assert w * low == low * w;
    } else {
      S.Accumulates(acc, low, k);
      NumberTail(d, p, n);
      SignedOn(d, p, k, acc);
      TenFrom(d, p + 1, k + 1, acc + low * w, n - 1);
      S.WeightStep(k);
      OneMore(acc, low, w, Digits(d[p + 1..p + n]));
    }
  }

  lemma TenthEnds(d: seq<byte>, p: nat, acc: u64)
    requires p < |d| && d[p] < 128
    ensures S.ReadFrom(d, p, 9, acc) == Some(S.Cursor((acc + d[p] % 128 * S.Weight(9)) % TWO64, p + 1))
  {
    hide S.Weight;
  }

  /** Ten bytes fill 64 bits by themselves: what does not fit is dropped. */
  lemma SignedTenValue(d: seq<byte>, p: nat)
    requires NumberAt(d, p, 10)
    ensures S.Read(d, p) == Some(S.Cursor(Digits(d[p..p + 10]) % TWO64, p + 10))
  {
    hide Digits, S.ReadFrom, S.Weight;
    assert S.Weight(0) == 1 by { S.Weights(); }
    TenFrom(d, p, 0, 0, 10);
  }

  // ----- unsigned -----

  lemma {:induction false} UnsignedFrom(d: seq<byte>, p: nat, k: nat, acc: u32, n: nat)
    requires NumberAt(d, p, n) && k + n <= 5 && acc < U.Weight(k)
    ensures U.ReadFrom(d, p, k, acc) == U.Num((acc + U.Weight(k) * Digits(d[p..p + n])) % TWO32, p + n)
    decreases n
  {
    hide Digits, U.ReadFrom, U.Weight;
    var low, w: nat := d[p] % 128, U.Weight(k);
    UnsignedStep(d, p, k, acc);
    if n == 1 {
      LastDigit(d, p);
      assert w * low == low * w;
    } else {
      NumberTail(d, p, n);
      UnsignedFits(k, acc, low);
      UnsignedFrom(d, p + 1, k + 1, acc + low * w, n - 1);
      OneMore(acc, low, w, Digits(d[p + 1..p + n]));
    }
  }

  lemma UnsignedStep(d: seq<byte>, p: nat, k: nat, acc: u32)
    requires p < |d| && k < 5
    ensures var low: nat := d[p] % 128;
      var next := (acc + low * U.Weight(k)) % TWO32;
      U.ReadFrom(d, p, k, acc) == if d[p] < 128 then U.Num(next, p + 1) else U.ReadFrom(d, p + 1, k + 1, next)
  {
    hide U.Weight;
  }

  lemma UnsignedFits(k: nat, acc: nat, low: nat)
    requires k < 4 && acc < U.Weight(k) && low < 128
    ensures acc + low * U.Weight(k) < U.Weight(k + 1) < TWO32 && U.Weight(k + 1) == 128 * U.Weight(k)
  {
    S.LowPart(acc, low, U.Weight(k));
  }

  /** An unsigned number of up to five bytes: its digits, cut to 32 bits. Both readers. */
  lemma UnsignedValue(d: seq<byte>, p: nat, n: nat)
    requires NumberAt(d, p, n) && n <= 5
    ensures U.Read(d, p) == U.Num(Digits(d[p..p + n]) % TWO32, p + n)
    ensures U.Scan(d, p) == U.Read(d, p)
  {
    hide Digits, U.ReadFrom, U.ScanFrom;
    UnsignedFrom(d, p, 0, 0, n);
    NumberOk(d, p, 0, n);
    U.ReadersAgree(d, p);
  }

  lemma {:induction false} NumberOk(d: seq<byte>, p: nat, k: nat, n: nat)
    requires NumberAt(d, p, n) && k + n <= 5
    ensures U.OkFrom(d, p, k)
    decreases n
  {
    if n > 1 {
      NumberTail(d, p, n);
      NumberOk(d, p + 1, k + 1, n - 1);
    }
  }
}
