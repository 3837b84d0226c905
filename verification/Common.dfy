// Vocabulary shared by the models: machine integers, optional values and the
// ascending enumeration of a finite key set (the iteration order of std::map).

module Common {

  const TWO16: int := 0x1_0000
  const TWO32: int := 0x1_0000_0000
  const TWO64: int := 0x1_0000_0000_0000_0000

  type byte = x: int | 0 <= x < 0x100
  type u16 = x: int | 0 <= x < 0x1_0000
  type u32 = x: int | 0 <= x < 0x1_0000_0000
  type u64 = x: int | 0 <= x < 0x1_0000_0000_0000_0000

  datatype Option<+T> = None | Some(value: T)

  datatype Result<+T> = Ok(value: T) | Err

  lemma {:induction false} FindMax(s: set<nat>) returns (m: nat)
    requires s != {}
    ensures m in s && forall x :: x in s ==> x <= m
  {
    m :| m in s;
    if s - {m} != {} {
      var top := FindMax(s - {m});
      assert forall x :: x in s ==> x == m || x in s - {m};
      if m < top { m := top; }
    } else {
      assert forall x :: x in s && x !in s - {m} ==> x == m;
    }
  }

  lemma MaxExists(s: set<nat>)
    requires s != {}
    ensures exists m :: m in s && forall x :: x in s ==> x <= m
  {
    var m := FindMax(s);
  }

  function Max(s: set<nat>): (m: nat)
    requires s != {}
    ensures m in s && forall x :: x in s ==> x <= m
  {
    MaxExists(s);
    var m :| m in s && forall x :: x in s ==> x <= m;
    m
  }

  /** The keys of a std::map in iteration order. */
  function Ascending(s: set<nat>): (r: seq<nat>)
    ensures |r| == |s|
    ensures forall x :: x in r <==> x in s
  {
    if s == {} then [] else
      var m := Max(s);
      Ascending(s - {m}) + [m]
  }

  lemma {:induction false} AscendingIncreases(s: set<nat>)
    ensures forall i, j :: 0 <= i < j < |Ascending(s)| ==> Ascending(s)[i] < Ascending(s)[j]
  {
    if s != {} {
      var m := Max(s);
      AscendingIncreases(s - {m});
      var rest := Ascending(s - {m});
      forall i | 0 <= i < |rest| ensures rest[i] < m {
        assert rest[i] in rest;
      }
    }
  }

  /** Keys 0..n-1 enumerate as themselves. */
  lemma {:induction false} AscendingRange(s: set<nat>, n: nat)
    requires forall x: nat :: x in s <==> x < n
    ensures |s| == n
    ensures forall i :: 0 <= i < n ==> Ascending(s)[i] == i
  {
    if n == 0 {
      assert s == {};
    } else {
      assert n - 1 in s;
      var m := Max(s);
      assert m == n - 1;
      AscendingRange(s - {m}, n - 1);
    }
  }

  // ----- quotients -----

  lemma TimesFar(k: nat, q: nat, d: nat)
    requires k < q
    ensures k * d + d <= q * d
  {
    assert (q - k - 1) * d >= 0;
    assert (q - k - 1) * d == q * d - k * d - d;
  }

  lemma QuotientIs(n: nat, d: nat, q: nat, r: nat)
    requires d > 0 && n == q * d + r && r < d
    ensures n / d == q
  {
    var k := n / d;
    assert n == k * d + n % d;
    if k < q { TimesFar(k, q, d); } else if q < k { TimesFar(q, k, d); }
  }

  /** Dividing by a product is dividing twice. */
  lemma DivTwice(n: nat, a: nat, b: nat)
    requires a > 0 && b > 0
    ensures a * b > 0 && n / (a * b) == n / a / b
  {
    var m, r := n / a, n % a;
    var q, s := m / b, m % b;
    Recomposed(n, a, m, r, b, q, s);
    QuotientIs(n, a * b, q, s * a + r);
  }

  lemma Recomposed(n: nat, a: nat, m: nat, r: nat, b: nat, q: nat, s: nat)
    requires n == m * a + r && r < a && m == q * b + s && s < b
    ensures 0 < a * b && n == q * (a * b) + (s * a + r) && s * a + r < a * b
  {
    TimesFar(s, b, a);
    assert b * a == a * b;
    Distributes(q, b, s, a);
  }

  lemma Distributes(q: nat, b: nat, s: nat, a: nat)
    ensures (q * b + s) * a == q * (a * b) + s * a
  {
    assert (q * b + s) * a == q * b * a + s * a;
    assert q * b * a == q * (b * a);
  }

  // ----- bytes in place -----

  /** The bytes bs stand at position p of d. */
  predicate At(d: seq<byte>, p: nat, bs: seq<byte>) {
    p + |bs| <= |d| && d[p..p + |bs|] == bs
  }

  lemma AtSplit(d: seq<byte>, p: nat, a: seq<byte>, b: seq<byte>)
    requires At(d, p, a + b)
    ensures At(d, p, a) && At(d, p + |a|, b)
  {
    assert d[p..p + |a|] == (a + b)[..|a|];
    assert d[p + |a|..p + |a| + |b|] == (a + b)[|a|..];
  }
}
