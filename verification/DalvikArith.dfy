// The interpreter's arithmetic on 64-bit slots. Overflow wraps, division truncates and
// yields 0 for a zero divisor, shifts use six bits of the count.

module DalvikArith {
  import opened Common
  import opened DalvikIsa

  function Pow2(n: nat): (p: nat)
    ensures p > 0
  {
    if n == 0 then 1 else 2 * Pow2(n - 1)
  }

  // ----- bitwise operations -----

  function And(a: nat, b: nat): nat {
    if a == 0 || b == 0 then 0 else (if a % 2 == 1 && b % 2 == 1 then 1 else 0) + 2 * And(a / 2, b / 2)
  }

  function Or(a: nat, b: nat): nat {
    if a == 0 then b else if b == 0 then a
    else (if a % 2 == 1 || b % 2 == 1 then 1 else 0) + 2 * Or(a / 2, b / 2)
  }

  function Xor(a: nat, b: nat): nat {
    if a == 0 then b else if b == 0 then a
    else (if a % 2 != b % 2 then 1 else 0) + 2 * Xor(a / 2, b / 2)
  }

  predicate Bit(a: nat, i: nat) {
    if i == 0 then a % 2 == 1 else Bit(a / 2, i - 1)
  }

  lemma {:induction false} ZeroBits(i: nat)
    ensures !Bit(0, i)
  {
    if i > 0 { ZeroBits(i - 1); }
  }

  lemma {:induction false} AndBits(a: nat, b: nat, i: nat)
    ensures Bit(And(a, b), i) <==> Bit(a, i) && Bit(b, i)
    decreases i
  {
    ZeroBits(i);
    if a != 0 && b != 0 && i > 0 { AndBits(a / 2, b / 2, i - 1); }
  }

  lemma {:induction false} OrBits(a: nat, b: nat, i: nat)
    ensures Bit(Or(a, b), i) <==> Bit(a, i) || Bit(b, i)
    decreases i
  {
    ZeroBits(i);
    if a != 0 && b != 0 && i > 0 { OrBits(a / 2, b / 2, i - 1); }
  }

  lemma {:induction false} XorBits(a: nat, b: nat, i: nat)
    ensures Bit(Xor(a, b), i) <==> (Bit(a, i) <==> !Bit(b, i))
    decreases i
  {
    ZeroBits(i);
    if a != 0 && b != 0 && i > 0 { XorBits(a / 2, b / 2, i - 1); }
  }

  lemma {:induction false} BitwiseBound(a: nat, b: nat, n: nat)
    requires a < Pow2(n) && b < Pow2(n)
    ensures And(a, b) < Pow2(n) && Or(a, b) < Pow2(n) && Xor(a, b) < Pow2(n)
    decreases n
  {
    if n > 0 { BitwiseBound(a / 2, b / 2, n - 1); }
  }

  lemma SlotBound()
    ensures Pow2(64) == TWO64
  {
    assert Pow2(8) == 0x100;
    Doubles(8, 8);
    Doubles(16, 16);
    Doubles(32, 32);
    assert 0x100 * 0x100 == 0x1_0000 && 0x1_0000 * 0x1_0000 == TWO32 && TWO32 * TWO32 == TWO64;
  }

  lemma {:induction false} Doubles(m: nat, n: nat)
    ensures Pow2(m + n) == Pow2(m) * Pow2(n)
    decreases n
  {
    if n > 0 {
      Doubles(m, n - 1);
      assert Pow2(m) * (2 * Pow2(n - 1)) == 2 * (Pow2(m) * Pow2(n - 1));
    }
  }

  // ----- division toward zero -----

  function Quotient(p: int, q: int): int
    requires q != 0
  {
    var n := (if p < 0 then -p else p) / (if q < 0 then -q else q);
    if (p < 0) == (q < 0) then n else -n
  }

  /** Quotient and remainder are what a truncating division gives: they recompose, and the
      remainder is smaller than the divisor and has the sign of the dividend. */
  lemma QuotientTruncates(p: int, q: int)
    requires q != 0
    ensures var r := p - q * Quotient(p, q);
      (if r < 0 then -r else r) < (if q < 0 then -q else q) && (p >= 0 ==> r >= 0) && (p <= 0 ==> r <= 0)
  {
    var a, b := if p < 0 then -p else p, if q < 0 then -q else q;
    var n := a / b;
    assert a == b * n + a % b;
    if p >= 0 && q < 0 { assert q * -n == b * n; }
    if p < 0 && q > 0 { assert q * -n == -(b * n); }
    if p < 0 && q < 0 { assert q * n == -(b * n); }
  }

  // ----- the operations -----

  function SignedSlot(u: u64): int { if u < TWO64 / 2 then u else u - TWO64 }

  /** Integer operation k: add sub mul div rem and or xor shl shr ushr. */
  function Binary(k: int, a: u64, b: u64): u64 {
    var p, q, s := SignedSlot(a), SignedSlot(b), Pow2(b % 64);
    if k == 0 then (a + b) % TWO64
    else if k == 1 then (a - b) % TWO64
    else if k == 2 then (a * b) % TWO64
    else if k == 3 then if q == 0 then 0 else Quotient(p, q) % TWO64
    else if k == 4 then if q == 0 then 0 else (p - q * Quotient(p, q)) % TWO64
    else if k == 5 then SlotBound(); BitwiseBound(a, b, 64); And(a, b)
    else if k == 6 then SlotBound(); BitwiseBound(a, b, 64); Or(a, b)
    else if k == 7 then SlotBound(); BitwiseBound(a, b, 64); Xor(a, b)
    else if k == 8 then (a * s) % TWO64
    else if k == 9 then (p / s) % TWO64
    else if k == 10 then Shifted(a, s); a / s
    else 0
  }

  lemma {:induction false} Grows(q: nat, s: nat)
    requires s > 0
    ensures s * q >= q
    decreases s
  {
    if s > 1 {
      Grows(q, s - 1);
      assert s * q == (s - 1) * q + q;
    }
  }

  lemma Shifted(a: nat, s: nat)
    requires s > 0
    ensures 0 <= a / s <= a
  {
    Grows(a / s, s);
  }

  /** neg, not and the conversions, by opcode; what is not modelled passes through. */
  function Unary(op: int, x: u64): u64 {
    var n := Sext(x, HALF32);
    if op == 0x7b then ToSlot(-n)
    else if op == 0x7c then ToSlot(-n - 1)
    else if op == 0x7d then ToSlot(0 - x as int)
    else if op == 0x7e then TWO64 - 1 - x
    else if op == 0x81 || op == 0x84 then ToSlot(n)
    else if op == 0x8d then ToSlot(Sext(x, HALF8))
    else if op == 0x8e then x % TWO16
    else if op == 0x8f then ToSlot(Sext(x, HALF16))
    else x
  }

  /** The environment of the source: this arithmetic, and any host. */
  function Arith(host: (seq<Call>, Call) -> u64): Env { Env(Unary, Binary, host) }

  // ----- what they mean for signed numbers -----

  lemma SlotOfSigned(u: u64)
    ensures SignedSlot(u) % TWO64 == u
  {
  }

  /** add and sub are those of signed numbers, wrapped, and undo each other. */
  lemma SignedAgrees(a: u64, b: u64)
    ensures Binary(0, a, b) == (SignedSlot(a) + SignedSlot(b)) % TWO64
    ensures Binary(1, a, b) == (SignedSlot(a) - SignedSlot(b)) % TWO64
  {
    hide Pow2, And, Or, Xor, Quotient;
    WrapSum(a, b, SignedSlot(a), SignedSlot(b));
  }

  lemma SubUndoesAdd(a: u64, b: u64)
    ensures Binary(1, Binary(0, a, b), b) == a
  {
    hide Pow2, And, Or, Xor, Quotient, SignedSlot;
    var s := Binary(0, a, b);
    assert s == a + b || s == a + b - TWO64;
  }

  /** neg is subtraction from zero, not the complement, and xor with itself is zero. */
  lemma Inverses(a: u64)
    ensures Unary(0x7d, a) == Binary(1, 0, a) && Unary(0x7e, a) == TWO64 - 1 - a && Binary(7, a, a) == 0
  {
    hide Pow2, And, Or, Xor, Quotient, Sext, SignedSlot;
    SelfXor(a);
  }

  lemma WrapSum(a: u64, b: u64, p: int, q: int)
    requires (p == a || p == a - TWO64) && (q == b || q == b - TWO64)
    ensures (a + b) % TWO64 == (p + q) % TWO64 && (a - b) % TWO64 == (p - q) % TWO64
  {
  }

  lemma {:induction false} SelfXor(a: nat)
    ensures Xor(a, a) == 0
  {
    if a != 0 { SelfXor(a / 2); }
  }

  /** Shifting left and back keeps what is not shifted out; an arithmetic shift keeps the
      sign. */
  lemma ShiftsAgree(a: u64, b: u64)
    requires a * Pow2(b % 64) < TWO64
    ensures Binary(10, Binary(8, a, b), b) == a
  {
    hide Pow2, And, Or, Xor, Quotient;
    var s := Pow2(b % 64);
    assert Binary(8, a, b) == a * s;
    DivideBack(a, s);
  }

  lemma DivideBack(a: nat, s: nat)
    requires s > 0
    ensures a * s / s == a
  {
    var q := a * s / s;
    assert a * s == s * q + a * s % s;
    Multiple(a - q, s);
    assert (a - q) * s == a * s - q * s;
  }

  lemma ArithmeticShift(a: u64, b: u64)
    ensures SignedSlot(a) < 0 ==> SignedSlot(Binary(9, a, b)) < 0
    ensures SignedSlot(a) >= 0 ==> Binary(9, a, b) == Binary(10, a, b)
  {
    hide Pow2, And, Or, Xor, Quotient;
    var p, s := SignedSlot(a), Pow2(b % 64);
    if p < 0 {
      NegativeShift(p, s);
      assert -TWO64 / 2 <= p / s < 0;
    } else {
      Shifted(a, s);
    }
  }

  lemma NegativeShift(p: int, s: nat)
    requires p < 0 && s > 0
    ensures p <= p / s < 0
  {
    var q, r := p / s, p % s;
    assert p == s * q + r && 0 <= r < s;
    BetweenMultiples(p, s, q, r);
  }

  lemma BetweenMultiples(p: int, s: nat, q: int, r: int)
    requires p < 0 && p == s * q + r && 0 <= r < s
    ensures p <= q < 0
  {
    if q >= 0 {
      Grows(q, s);
    } else if q < p {
      Grows(p - 1 - q, s);
      Grows(-p, s);
    }
  }

  // ----- the operations by what they mean -----

  /** v is the result of integer operation k on the slots x and y. */
  ghost predicate IsResult(k: int, x: u64, y: u64, v: u64) {
    var p, q := SignedSlot(x), SignedSlot(y);
    match k
    case 0 => v == (p + q) % TWO64
    case 1 => v == (p - q) % TWO64
    case 2 => v == (x * y) % TWO64
    case 3 => if y == 0 then v == 0 else exists n, r :: Truncates(p, q, n, r) && v == n % TWO64
    case 4 => if y == 0 then v == 0 else exists n, r :: Truncates(p, q, n, r) && v == r % TWO64
    case 5 => forall i :: 0 <= i < 64 ==> (Bit(v, i) <==> Bit(x, i) && Bit(y, i))
    case 6 => forall i :: 0 <= i < 64 ==> (Bit(v, i) <==> Bit(x, i) || Bit(y, i))
    case 7 => forall i :: 0 <= i < 64 ==> (Bit(v, i) <==> (Bit(x, i) <==> !Bit(y, i)))
    case 8 => v == x * Pow2(y % 64) % TWO64
    case 9 => exists n, r :: Floors(p, Pow2(y % 64), n, r) && v == n % TWO64
    case 10 => exists n, r :: Floors(x, Pow2(y % 64), n, r) && v == n
    case _ => true
  }

  /** n is p / q rounded toward zero, r what remains. */
  predicate Truncates(p: int, q: int, n: int, r: int) {
    && p == q * n + r && (if r < 0 then -r else r) < (if q < 0 then -q else q)
    && (p >= 0 ==> r >= 0) && (p <= 0 ==> r <= 0)
  }

  /** n is p / s rounded down, r what remains. */
  predicate Floors(p: int, s: nat, n: int, r: int) { p == s * n + r && 0 <= r < s }

  lemma DivisionResult(k: int, x: u64, y: u64)
    requires k == 3 || k == 4
    ensures IsResult(k, x, y, Binary(k, x, y))
  {
    hide Pow2, And, Or, Xor, Bit;
    var p, q := SignedSlot(x), SignedSlot(y);
    if q != 0 {
      QuotientTruncates(p, q);
      assert Truncates(p, q, Quotient(p, q), p - q * Quotient(p, q));
    }
  }

  lemma BitResult(k: int, x: u64, y: u64)
    requires 5 <= k <= 7
    ensures IsResult(k, x, y, Binary(k, x, y))
  {
    hide Pow2, And, Or, Xor, Bit, Quotient;
    forall i | 0 <= i < 64
      ensures Bit(And(x, y), i) <==> Bit(x, i) && Bit(y, i)
      ensures Bit(Or(x, y), i) <==> Bit(x, i) || Bit(y, i)
      ensures Bit(Xor(x, y), i) <==> (Bit(x, i) <==> !Bit(y, i))
    {
      AndBits(x, y, i);
      OrBits(x, y, i);
      XorBits(x, y, i);
    }
  }

  lemma ShiftResult(k: int, x: u64, y: u64)
    requires 8 <= k <= 10
    ensures IsResult(k, x, y, Binary(k, x, y))
  {
    hide Pow2, And, Or, Xor, Bit, Quotient;
    var p, s := SignedSlot(x), Pow2(y % 64);
    assert Floors(p, s, p / s, p % s);
    assert Floors(x, s, x / s, x % s);
  }

  /** All eleven operations mean what their names say. */
  lemma BinaryMeans(k: int, x: u64, y: u64)
    requires 0 <= k <= 10
    ensures IsResult(k, x, y, Binary(k, x, y))
  {
    hide Pow2, And, Or, Xor, Bit, Quotient, SignedSlot;
    if k <= 1 {
      SignedAgrees(x, y);
    } else if k == 3 || k == 4 {
      DivisionResult(k, x, y);
    } else if 5 <= k <= 7 {
      BitResult(k, x, y);
    } else if k >= 8 {
      ShiftResult(k, x, y);
    }
  }

  /** n is the low part of x, below 2 * half, as a signed number. */
  predicate Narrows(x: u64, half: int, n: int)
    requires half > 0
  {
    n % (2 * half) == x % (2 * half) && -half <= n < half
  }

  /** v is the result of the unary operation with this opcode on the slot x. */
  ghost predicate IsUnary(op: int, x: u64, v: u64) {
    match op
    case 0x7b => exists n :: Narrows(x, 0x8000_0000, n) && v == (0 - n) % TWO64
    case 0x7c => exists n :: Narrows(x, 0x8000_0000, n) && v == (-1 - n) % TWO64
    case 0x7d => (v + x) % TWO64 == 0
    case 0x7e => v + x == TWO64 - 1
    case 0x81 => exists n :: Narrows(x, 0x8000_0000, n) && v == n % TWO64
    case 0x84 => exists n :: Narrows(x, 0x8000_0000, n) && v == n % TWO64
    case 0x8d => exists n :: Narrows(x, 0x80, n) && v == n % TWO64
    case 0x8e => v < TWO16 && (x - v) % TWO16 == 0
    case 0x8f => exists n :: Narrows(x, 0x8000, n) && v == n % TWO64
    case _ => v == x
  }

  lemma SextNarrows(x: u64, half: int)
    requires half > 0
    ensures Narrows(x, half, Sext(x, half))
  {
    var m := 2 * half;
    var n := Sext(x, half);
    if n < 0 {
      ModUnique(n, m, -1, x % m);
    } else {
      ModUnique(n, m, 0, x % m);
    }
  }

  lemma SlotArithmetic(x: u64)
    ensures IsUnary(0x7d, x, Unary(0x7d, x)) && IsUnary(0x7e, x, Unary(0x7e, x)) && IsUnary(0x8e, x, Unary(0x8e, x))
  {
    assert x - x % TWO16 == TWO16 * (x / TWO16);
  }

  lemma NarrowArithmetic(op: int, x: u64)
    requires op in {0x7b, 0x7c, 0x81, 0x84, 0x8d, 0x8f}
    ensures IsUnary(op, x, Unary(op, x))
  {
    hide Sext, Narrows;
    if op == 0x8d {
      SextNarrows(x, 0x80);
    } else if op == 0x8f {
      SextNarrows(x, 0x8000);
    } else {
      SextNarrows(x, 0x8000_0000);
    }
  }

  lemma PlainCopy(op: int, x: u64)
    requires op !in {0x7b, 0x7c, 0x7d, 0x7e, 0x81, 0x84, 0x8d, 0x8e, 0x8f}
    ensures IsUnary(op, x, Unary(op, x))
  {
    hide Sext, Narrows;
  }

  /** neg, not and the conversions mean what their names say. */
  lemma UnaryMeans(op: int, x: u64)
    ensures IsUnary(op, x, Unary(op, x))
  {
    hide IsUnary, Unary;
    if op in {0x7b, 0x7c, 0x81, 0x84, 0x8d, 0x8f} {
      NarrowArithmetic(op, x);
    } else if op in {0x7d, 0x7e, 0x8e} {
      SlotArithmetic(x);
    } else {
      PlainCopy(op, x);
    }
  }
}
