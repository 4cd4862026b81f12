/** Conversion between numeric types with rounding and clamping. Floating point numbers are exact reals. */
module NumericConverter {
  import opened RawBits

  datatype NumType = Integer(t: IntType) | Floating

  /** x is a value of the type. */
  predicate IsValue(n: NumType, x: real) {
    n.Integer? ==> x == x.Floor as real && InRange(n.t, x.Floor)
  }

  // ----- the code

  function Truncate(x: real): int {
    if x >= 0.0 then x.Floor else 0 - (0.0 - x).Floor
  }

  function RoundAndCast(to: IntType, x: real): int {
    Cast(to, if x >= 0.0 then Truncate(x + 0.5) else Truncate(x - 0.5))
  }

  /** convert() from a floating point type to an integer type. */
  function ConvertReal(to: IntType, x: real): int {
    if x >= Max(to) as real then Max(to)
    else if !to.signed && x < 0.0 then 0
    else if to.signed && x <= Min(to) as real then Min(to)
    else RoundAndCast(to, x)
  }

  predicate GreaterMaximum(left: IntType, right: IntType) {
    left != right && Max(left) > Max(right)
  }

  predicate LesserMinimum(left: IntType, right: IntType) {
    left != right && Min(left) < Min(right)
  }

  /** convert() between integer types. */
  function ConvertInt(to: IntType, from: IntType, x: int): int {
    if from == to then x
    else if GreaterMaximum(from, to) && x >= Max(to) then Max(to)
    else if from.signed && !to.signed && x < 0 then 0
    else if from.signed && to.signed && LesserMinimum(from, to) && x <= Min(to) then Min(to)
    else Cast(to, x)
  }

  function Convert(to: NumType, from: NumType, x: real): real {
    if to.Floating? then x
    else if from.Floating? then ConvertReal(to.t, x) as real
    else ConvertInt(to.t, from.t, x.Floor) as real
  }

  // ----- what it means

  function Distance(x: real, i: int): real {
    if x >= i as real then x - i as real else i as real - x
  }

  function Abs(i: int): int {
    if i < 0 then -i else i
  }

  /** r is nearest to x among all integers; of two which are equally near it is the one farther from zero. */
  ghost predicate IsNearest(x: real, r: int) {
    forall i :: Distance(x, r) <= Distance(x, i) && (Distance(x, r) == Distance(x, i) ==> Abs(i) <= Abs(r))
  }

  function Round(x: real): int {
    if x >= 0.0 then (x + 0.5).Floor else 0 - (0.5 - x).Floor
  }

  lemma RoundIsNearest(x: real)
    ensures IsNearest(x, Round(x))
    ensures forall r :: IsNearest(x, r) ==> r == Round(x)
  {
    forall i
      ensures Distance(x, Round(x)) <= Distance(x, i)
      ensures Distance(x, Round(x)) == Distance(x, i) ==> Abs(i) <= Abs(Round(x))
    {
      NearerThan(x, i);
    }
    forall r | IsNearest(x, r)
      ensures r == Round(x)
    {
      NearerThan(x, r);
      assert Distance(x, r) <= Distance(x, Round(x));
      SameSide(x, r);
    }
  }

  lemma NearerThan(x: real, i: int)
    ensures Distance(x, Round(x)) <= Distance(x, i)
    ensures Distance(x, Round(x)) == Distance(x, i) ==> Abs(i) <= Abs(Round(x))
  {
    RoundHalf(x);
    var r := Round(x);
    if i < r { assert i as real <= r as real - 1.0; }
    if i > r { assert i as real >= r as real + 1.0; }
  }

  lemma SameSide(x: real, r: int)
    requires Distance(x, r) == Distance(x, Round(x)) && Abs(r) == Abs(Round(x))
    ensures r == Round(x)
  {
    RoundHalf(x);
  }

  lemma RoundHalf(x: real)
    ensures -0.5 <= x - Round(x) as real <= 0.5
  {
  }

  lemma RoundMonotone(x: real, y: real)
    requires x <= y
    ensures Round(x) <= Round(y)
  {
  }

  lemma RoundWhole(x: real, i: int)
    requires x == i as real
    ensures Round(x) == i
  {
  }

  /** The value of the type by which x is represented: rounded to the nearest integer and clamped to the range. */
  function Represent(n: NumType, x: real): real {
    if n.Floating? then x else Clamp(n.t, Round(x)) as real
  }

  lemma ConvertRealClamps(to: IntType, x: real)
    ensures ConvertReal(to, x) == Clamp(to, Round(x))
  {
    hide Round, RoundAndCast, Cast, Pow2, Max, Min;
    Limits(to);
    RoundAndCastRounds(to, x);
    RoundBetween(Min(to), x, Max(to));
    if Min(to) as real <= x < Max(to) as real {
      CastFits(to, Round(x));
    }
  }

  lemma Limits(t: IntType)
    ensures Min(t) <= 0 <= Max(t)
    ensures !t.signed ==> Min(t) == 0
  {
  }

  lemma RoundAndCastRounds(to: IntType, x: real)
    ensures RoundAndCast(to, x) == Cast(to, Round(x))
  {
    hide Cast;
    assert (if x >= 0.0 then Truncate(x + 0.5) else Truncate(x - 0.5)) == Round(x);
  }

  lemma RoundBetween(lo: int, x: real, hi: int)
    ensures x >= hi as real ==> Round(x) >= hi
    ensures x <= hi as real ==> Round(x) <= hi
    ensures x <= lo as real ==> Round(x) <= lo
    ensures x >= lo as real ==> Round(x) >= lo
  {
    RoundWhole(hi as real, hi);
    RoundWhole(lo as real, lo);
    if x >= hi as real { RoundMonotone(hi as real, x); } else { RoundMonotone(x, hi as real); }
    if x <= lo as real { RoundMonotone(x, lo as real); } else { RoundMonotone(lo as real, x); }
  }

  lemma ConvertIntClamps(to: IntType, from: IntType, x: int)
    requires InRange(from, x)
    ensures ConvertInt(to, from, x) == Clamp(to, x)
  {
    if InRange(to, x) {
      CastFits(to, x);
    }
  }

  /** The type which has received a conversion shows the nearest value it has. */
  lemma ConvertRepresents(to: NumType, from: NumType, x: real)
    requires IsValue(from, x)
    ensures Convert(to, from, x) == Represent(to, x)
    ensures IsValue(to, Represent(to, x))
  {
    if to.Integer? {
      ClampInRange(to.t, Round(x));
      if from.Integer? {
        RoundWhole(x, x.Floor);
        ConvertIntClamps(to.t, from.t, x.Floor);
      } else {
        ConvertRealClamps(to.t, x);
      }
    }
  }

  lemma ClampInRange(t: IntType, i: int)
    ensures InRange(t, Clamp(t, i))
    ensures (Clamp(t, i) as real).Floor == Clamp(t, i)
  {
    assert Min(t) <= 0 <= Max(t);
  }
}
