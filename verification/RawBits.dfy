/** Machine integers: powers of two, bit operations on the binary digits of a natural number, and casts between integer
    types. */
module RawBits {
  function Pow2(n: nat): (r: nat)
    ensures r >= 1
  {
    if n == 0 then 1 else 2 * Pow2(n - 1)
  }

  lemma {:induction false} Pow2Add(a: nat, b: nat)
    ensures Pow2(a + b) == Pow2(a) * Pow2(b)
  {
    if a > 0 {
      Pow2Add(a - 1, b);
      assert Pow2(a + b) == 2 * (Pow2(a - 1) * Pow2(b)) == (2 * Pow2(a - 1)) * Pow2(b);
    }
  }

  lemma {:induction false} Pow2Monotone(a: nat, b: nat)
    requires a <= b
    ensures Pow2(a) <= Pow2(b)
    decreases b
  {
    if a < b { Pow2Monotone(a, b - 1); }
  }

  // ----- bit operations

  function And(x: nat, y: nat): nat {
    if x == 0 || y == 0 then 0 else (if x % 2 == 1 && y % 2 == 1 then 1 else 0) + 2 * And(x / 2, y / 2)
  }

  function Or(x: nat, y: nat): nat
    decreases x + y
  {
    if x == 0 && y == 0 then 0 else (if x % 2 == 1 || y % 2 == 1 then 1 else 0) + 2 * Or(x / 2, y / 2)
  }

  function Xor(x: nat, y: nat): nat
    decreases x + y
  {
    if x == 0 && y == 0 then 0 else (if x % 2 != y % 2 then 1 else 0) + 2 * Xor(x / 2, y / 2)
  }

  lemma ModDouble(x: nat, p: nat)
    requires p > 0
    ensures x % (2 * p) == x % 2 + 2 * ((x / 2) % p)
  {
    var r := x % 2 + 2 * ((x / 2) % p);
    var q := (x / 2) / p;
    assert x / 2 == q * p + (x / 2) % p;
    assert x == (2 * p) * q + r by {
      assert 2 * (q * p) == (2 * p) * q;
    }
    DivModUnique(x, 2 * p, q, r);
  }

  lemma MulMonotone(x: int, y: int, p: int)
    requires x <= y && p >= 0
    ensures x * p <= y * p
  {
  }

  lemma MulDistributes(p: int, x: int, y: int)
    ensures p * (x - y) == p * x - p * y
  {
  }

  lemma DivModUnique(x: int, d: int, q: int, r: int)
    requires d > 0 && 0 <= r < d && x == d * q + r
    ensures x / d == q && x % d == r
  {
    var q', r' := x / d, x % d;
    assert x == d * q' + r';
    MulDistributes(d, q, q');
    if q > q' { MulMonotone(1, q - q', d); }
    if q < q' { MulMonotone(q - q', -1, d); }
  }

  /** Masking with w ones is the remainder by 2^w. */
  lemma {:induction false} AndMask(x: nat, w: nat)
    ensures And(x, Pow2(w) - 1) == x % Pow2(w)
  {
    if w > 0 {
      AndMask(x / 2, w - 1);
      ModDouble(x, Pow2(w - 1));
      AndOdd(x, Pow2(w - 1) - 1);
    }
  }

  lemma {:induction false} AndOdd(x: nat, p: nat)
    ensures And(x, 2 * p + 1) == x % 2 + 2 * And(x / 2, p)
  {
    if x > 0 { assert (2 * p + 1) / 2 == p; }
  }

  /** Masking the sign bit of a w-bit number. */
  lemma {:induction false} AndSignBit(x: nat, w: nat)
    requires w > 0
    ensures And(x, Pow2(w - 1)) == if x % Pow2(w) >= Pow2(w - 1) then Pow2(w - 1) else 0
  {
    if w > 1 {
      AndSignBit(x / 2, w - 1);
      AndEven(x, Pow2(w - 2));
      ModDouble(x, Pow2(w - 1));
    } else {
      assert And(x, 1) == x % 2 by { assert And(x / 2, 0) == 0; }
    }
  }

  lemma {:induction false} AndEven(x: nat, p: nat)
    ensures And(x, 2 * p) == 2 * And(x / 2, p)
  {
  }

  /** Setting all bits from w on in a number of n bits. */
  lemma {:induction false} OrUpperBits(x: nat, w: nat, n: nat)
    requires w <= n && x < Pow2(n)
    ensures Pow2(n) >= Pow2(w)
    ensures Or(x, Pow2(n) - Pow2(w)) == x % Pow2(w) + Pow2(n) - Pow2(w)
    decreases n
  {
    hide Or;
    Pow2Monotone(w, n);
    if w == 0 {
      OrAllOnes(x, n);
    } else {
      OrUpperBits(x / 2, w - 1, n - 1);
      OrUpperStep(x, Pow2(w - 1), Pow2(n - 1));
    }
  }

  lemma {:induction false} OrUpperStep(x: nat, p: nat, q: nat)
    requires 0 < p <= q && Or(x / 2, q - p) == (x / 2) % p + q - p
    ensures Or(x, 2 * q - 2 * p) == x % (2 * p) + 2 * q - 2 * p
  {
    hide Or;
    ModDouble(x, p);
    OrDigit(x, q - p, 0);
    assert 2 * (q - p) + 0 == 2 * q - 2 * p;
  }

  lemma {:induction false} OrAllOnes(x: nat, n: nat)
    requires x < Pow2(n)
    ensures Or(x, Pow2(n) - 1) == Pow2(n) - 1
  {
    if n > 0 {
      OrAllOnes(x / 2, n - 1);
      OrDigit(x, Pow2(n - 1) - 1, 1);
    }
  }

  lemma OrDigit(x: nat, p: nat, d: nat)
    requires d < 2
    ensures Or(x, 2 * p + d) == (if d == 1 then 1 else x % 2) + 2 * Or(x / 2, p)
  {
    assert (2 * p + d) / 2 == p && (2 * p + d) % 2 == d;
  }

  lemma {:induction false} XorTopBit(w: nat)
    requires w > 0
    ensures Xor(Pow2(w) - 1, Pow2(w - 1)) == Pow2(w - 1) - 1
  {
    if w > 1 {
      XorTopBit(w - 1);
      XorDigits(Pow2(w - 1) - 1, Pow2(w - 2), 1, 0);
    } else {
      XorDigits(0, 0, 1, 1);
      assert Xor(0, 0) == 0;
    }
  }

  lemma XorDigits(p: nat, q: nat, d: nat, e: nat)
    requires d < 2 && e < 2
    ensures Xor(2 * p + d, 2 * q + e) == (if d != e then 1 else 0) + 2 * Xor(p, q)
  {
    assert (2 * p + d) / 2 == p && (2 * p + d) % 2 == d;
    assert (2 * q + e) / 2 == q && (2 * q + e) % 2 == e;
  }

  // ----- integer types

  type Width = n: nat | n >= 1 witness 1

  datatype IntType = IntType(bits: Width, signed: bool)

  function Max(t: IntType): int {
    if t.signed then Pow2(t.bits - 1) - 1 else Pow2(t.bits) - 1
  }

  function Min(t: IntType): int {
    if t.signed then 0 - Pow2(t.bits - 1) else 0
  }

  predicate InRange(t: IntType, x: int) {
    Min(t) <= x <= Max(t)
  }

  function Clamp(t: IntType, x: int): int {
    if x < Min(t) then Min(t) else if x > Max(t) then Max(t) else x
  }

  /** Cast to an integer type: the value of the type which is congruent modulo 2^bits. */
  function Cast(t: IntType, x: int): (r: int)
    ensures InRange(t, r)
  {
    var m := x % Pow2(t.bits);
    if t.signed && m >= Pow2(t.bits - 1) then m - Pow2(t.bits) else m
  }

  /** A value of the type which differs by a multiple of 2^bits is the result of the cast. */
  lemma CastUnique(t: IntType, x: int, y: int, k: int)
    requires InRange(t, y) && x == y + k * Pow2(t.bits)
    ensures Cast(t, x) == y
  {
    var d := Pow2(t.bits);
    if y >= 0 {
      DivModUnique(x, d, k, y);
    } else {
      assert x == d * (k - 1) + (y + d);
      DivModUnique(x, d, k - 1, y + d);
    }
  }

  lemma CastFits(t: IntType, x: int)
    requires InRange(t, x)
    ensures Cast(t, x) == x
  {
    CastUnique(t, x, x, 0);
  }

  lemma CastPeriod(t: IntType, x: int) returns (k: int)
    ensures x == Cast(t, x) + k * Pow2(t.bits)
  {
    var d := Pow2(t.bits);
    k := x / d + if Cast(t, x) < 0 then 1 else 0;
    assert x == d * (x / d) + x % d;
    assert Cast(t, x) < 0 ==> (x / d + 1) * d == (x / d) * d + d;
  }

  /** A narrower type of the same signedness is contained in a wider one. */
  lemma WidenRange(t: IntType, bits: Width, x: int)
    requires InRange(t, x) && t.bits <= bits
    ensures InRange(IntType(bits, t.signed), x)
  {
    Pow2Monotone(t.bits, bits);
    Pow2Monotone(t.bits - 1, bits - 1);
  }

  /** A shift to the left of a number of w bits needs w + k bits. */
  lemma {:induction false} ShiftRange(t: IntType, k: nat, x: int)
    requires InRange(t, x)
    ensures InRange(IntType(t.bits + k, t.signed), x * Pow2(k))
  {
    var p := Pow2(k);
    if t.signed {
      var q: int := Pow2(t.bits - 1);
      ScalePower(t.bits - 1, k, 0 - q, x);
      NegatedTimes(q, p);
      Pow2Add(t.bits - 1, k);
    } else {
      ScalePower(t.bits, k, 0, x);
    }
  }

  lemma NegatedTimes(q: int, p: int)
    ensures (0 - q) * p == 0 - q * p
  {
  }

  lemma ScalePower(b: nat, k: nat, lo: int, x: int)
    requires lo <= x <= Pow2(b) - 1
    ensures lo * Pow2(k) <= x * Pow2(k) <= Pow2(b + k) - 1
  {
    Pow2Add(b, k);
    ScaleBetween(lo, x, Pow2(b), Pow2(k));
  }

  lemma ScaleBetween(lo: int, x: int, hi: int, p: int)
    requires lo <= x <= hi - 1 && p >= 1
    ensures lo * p <= x * p <= hi * p - 1
  {
    MulMonotone(lo, x, p);
    MulMonotone(x, hi - 1, p);
    PredecessorTimes(hi, p);
  }

  lemma PredecessorTimes(q: int, p: int)
    requires p >= 1
    ensures (q - 1) * p <= q * p - 1
  {
  }

  lemma ShiftedRemainder(d: int, p: int, x: int, a: int, u: int, b: int, s: int)
    requires x == u + a * d && u * p == d * b + s
    ensures s == x * p + (-(a * p) - b) * d
  {
    assert x * p == u * p + (a * d) * p;
    assert (a * d) * p == (a * p) * d;
    MulDistributes(d, -(a * p), b);
  }

  /** Shifting the unsigned representation of a value does not wrap if the result fits. */
  lemma {:induction false} ShiftOfCast(t: IntType, k: nat, x: int)
    requires InRange(t, x * Pow2(k))
    ensures Cast(t, (Cast(IntType(t.bits, false), x) * Pow2(k)) % Pow2(t.bits)) == x * Pow2(k)
  {
    var d, p := Pow2(t.bits), Pow2(k);
    var a := CastPeriod(IntType(t.bits, false), x);
    var u := Cast(IntType(t.bits, false), x);
    DivModShift(d, p, x, a, u);
    var s := (u * p) % d;
    CastUnique(t, s, x * p, -(a * p) - (u * p) / d);
  }

  lemma DivModShift(d: int, p: int, x: int, a: int, u: int)
    requires d > 0 && x == u + a * d
    ensures (u * p) % d == x * p + (-(a * p) - (u * p) / d) * d
  {
    var up := u * p;
    assert up == d * (up / d) + up % d;
    ShiftedRemainder(d, p, x, a, u, up / d, up % d);
  }
}
