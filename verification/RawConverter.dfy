/**
 Conversion between raw register values of arbitrary bit width, signedness and number of fractional bits, and cooked
 values of any numeric user type. The template parameters of the converter are fields here.
 */
module RawConverter {
  import opened Samples
  import opened RawBits
  import opened NumericConverter

  /** Channel description, user type and width of the raw type (an unsigned integer of 8, 16, 32 or 64 bits). */
  datatype Channel = Channel(user: NumType, raw: Width, width: nat, signed: bool, fractional: int)

  datatype SignificantBits = Native(bits: Width) | Generic

  datatype Fraction = WholeNumber | FixedPositive | FixedNegative | FixedNegativeFast

  datatype Converter = Converter(
    user: NumType, raw: Width, signed: bool, sc: SignificantBits, fc: Fraction,
    signBitMask: nat, usedBitMask: nat, unusedBitMask: nat,
    minRaw: nat, maxRaw: nat, minPromoted: int, maxPromoted: int,
    conversionFactor: real, inverseConversionFactor: real, nNegativeFractionalBits: nat)
  {
    function Promoted(): IntType { IntType(raw, signed) }
  }

  // ----- selecting the case

  /** callForSignificantBitsCase: the cases of the switch fall through if the raw type is too narrow. */
  function SelectBits(raw: Width, width: nat): SignificantBits {
    if width == 8 && raw >= 8 then Native(8)
    else if width in {8, 16} && raw >= 16 then Native(16)
    else if width in {8, 16, 32} && raw >= 32 then Native(32)
    else if width in {8, 16, 32, 64} && raw >= 64 then Native(64)
    else Generic
  }

  function SelectFraction(c: Channel): Fraction {
    if c.fractional == 0 then WholeNumber
    else if c.fractional > 0 then FixedPositive
    else if c.user.Integer? && c.user.t.bits >= c.width - c.fractional && c.user.t.signed == c.signed
    then FixedNegativeFast
    else FixedNegative
  }

  // ----- mask tables, indexed by the number of significant bits; the word has 64 bits

  function ShiftLeft(word: nat, x: nat, k: nat): nat { x * Pow2(k) % Pow2(word) }

  function Complement(word: nat, x: nat): nat
    requires x < Pow2(word)
  {
    Pow2(word) - 1 - x
  }

  function UnusedBitMask(word: nat, w: nat): nat {
    if w < word then ShiftLeft(word, Complement(word, 0), w) else 0
  }

  function UsedBitMask(word: nat, w: nat): nat {
    if w < word then Complement(word, ShiftLeft(word, Complement(word, 0), w)) else Complement(word, 0)
  }

  function SignBitMask(word: nat, w: nat): nat {
    if w > 0 then ShiftLeft(word, 1, w - 1) else 0
  }

  /** interpretArbitraryBitInteger */
  function Interpret(sc: SignificantBits, promoted: IntType, signBitMask: nat, usedBitMask: nat, unusedBitMask: nat,
                     raw: nat): int {
    match sc
    case Generic =>
      if promoted.signed then
        if And(raw, signBitMask) == 0 then Cast(promoted, And(raw, usedBitMask))
          else Cast(promoted, Or(raw, unusedBitMask))
      else Cast(promoted, And(raw, usedBitMask))
    case Native(bits) =>
      if promoted.signed then Cast(promoted, Cast(IntType(bits, true), raw))
        else Cast(promoted, Cast(IntType(bits, false), raw))
  }

  // ----- the converter

  /** 2^n as a floating point number, std::pow(2, n). */
  function Scale(n: int): (r: real)
    ensures r > 0.0
  {
    if n >= 0 then Pow2(n) as real else 1.0 / Pow2(-n) as real
  }

  /** The constructor; None if it throws. */
  function Make(c: Channel): Option<Converter>
    requires c.width <= 64
  {
    var fc := SelectFraction(c);
    if fc != WholeNumber && (c.fractional > c.width || c.fractional < -(64 - c.width)) then None
    else
      var narrow := Pow2(c.raw);
      var sc := SelectBits(c.raw, c.width);
      var promoted := IntType(c.raw, c.signed);
      var signBitMask := if c.signed then SignBitMask(64, c.width) % narrow else 0;
      var used := UsedBitMask(64, c.width) % narrow;
      var unused := UnusedBitMask(64, c.width) % narrow;
      var maxRaw := if c.signed then Xor(used, signBitMask) else used;
      var minRaw := if c.signed then signBitMask else 0;
      Some(Converter(c.user, c.raw, c.signed, sc, fc, signBitMask, used, unused, minRaw, maxRaw,
        Interpret(sc, promoted, signBitMask, used, unused, minRaw), Cast(promoted, maxRaw),
        1.0 / Scale(c.fractional), Scale(c.fractional), if c.fractional < 0 then -c.fractional else 0))
  }

  function Promote(c: Converter, raw: nat): int {
    Interpret(c.sc, c.Promoted(), c.signBitMask, c.usedBitMask, c.unusedBitMask, raw)
  }

  /** Shift to the left by k bits in the unsigned type of the same width. */
  function ShiftedIn(t: IntType, x: int, k: nat): int {
    Cast(t, Cast(IntType(t.bits, false), x) * Pow2(k) % Pow2(t.bits))
  }

  function ToCooked(c: Converter, raw: nat): real {
    var promoted := Promote(c, raw);
    match c.fc
    case WholeNumber => Convert(c.user, Integer(c.Promoted()), promoted as real)
    case FixedPositive => Convert(c.user, Floating, promoted as real * c.conversionFactor)
    case FixedNegative =>
      if c.user.Floating? then promoted as real * c.conversionFactor
      else
        var intermediate := IntType(64, c.signed);
        var shifted := ShiftedIn(intermediate, Cast(intermediate, promoted), c.nNegativeFractionalBits);
        Convert(c.user, Integer(intermediate), shifted as real)
    case FixedNegativeFast =>
      if c.user.Floating? then 0.0   // not instantiated
      else
        var t := c.user.t;
        ShiftedIn(t, Cast(t, promoted), c.nNegativeFractionalBits) as real
  }

  function ToRaw(c: Converter, x: real): nat {
    Store(c, PromotedCooked(c, x).Floor)
  }

  /** The cooked value in steps of the register, clamped to the promoted raw type. */
  function PromotedCooked(c: Converter, x: real): real {
    if c.fc == WholeNumber then Convert(Integer(c.Promoted()), c.user, x)
    else Convert(Integer(c.Promoted()), Floating, InSteps(c, x))
  }

  function InSteps(c: Converter, x: real): real {
    Convert(Floating, c.user, x) * c.inverseConversionFactor
  }

  /** Range check for the arbitrary bit width. */
  function Store(c: Converter, promoted: int): nat {
    if promoted < c.minPromoted then c.minRaw
    else if promoted > c.maxPromoted then c.maxRaw
    else And(Cast(IntType(c.raw, false), promoted), c.usedBitMask)
  }

  lemma ScaleInverse(n: int)
    ensures 1.0 / Scale(n) == Scale(-n)
    ensures Scale(n) * Scale(-n) == 1.0
  {
    if n < 0 {
      Reciprocal(Pow2(-n) as real);
    } else if n > 0 {
      Reciprocal(Pow2(n) as real);
    }
  }

  lemma Reciprocal(p: real)
    requires p > 0.0
    ensures 1.0 / (1.0 / p) == p && p * (1.0 / p) == 1.0
  {
  }

  // ----- the masks

  /** The w significant bits fit into the raw type. */
  predicate Fits(c: Channel) {
    1 <= c.width <= c.raw <= 64
  }

  function Field(c: Channel): IntType
    requires Fits(c)
  {
    IntType(c.width, c.signed)
  }

  lemma {:induction false} AllOnesShifted(w: nat, n: nat)
    requires w <= n
    ensures Pow2(w) <= Pow2(n)
    ensures (Pow2(n) - 1) * Pow2(w) % Pow2(n) == Pow2(n) - Pow2(w)
  {
    Pow2Monotone(w, n);
    OnesTimes(Pow2(n), Pow2(w));
    DivModUnique((Pow2(n) - 1) * Pow2(w), Pow2(n), Pow2(w) - 1, Pow2(n) - Pow2(w));
  }

  lemma OnesTimes(d: int, p: int)
    ensures (d - 1) * p == d * (p - 1) + (d - p)
  {
  }

  /** A complement in n + k bits, seen in n bits. */
  lemma RemainderOfComplement(w: nat, n: nat, k: nat)
    requires w <= n
    ensures (Pow2(n + k) - Pow2(w)) % Pow2(n) == Pow2(n) - Pow2(w)
  {
    var d, q, p := Pow2(n), Pow2(k), Pow2(w);
    Pow2Monotone(w, n);
    RemainderOfMultipleLess(d, q, p);
    Pow2Add(n, k);
  }

  lemma RemainderOfMultipleLess(d: int, q: int, p: int)
    requires 1 <= p <= d
    ensures (d * q - p) % d == d - p
  {
    MulDistributes(d, q, 1);
    DivModUnique(d * q - p, d, q - 1, d - p);
  }

  lemma Tables(word: nat, w: nat)
    requires 1 <= w <= word
    ensures Pow2(w) <= Pow2(word)
    ensures UsedBitMask(word, w) == Pow2(w) - 1
    ensures UnusedBitMask(word, w) == Pow2(word) - Pow2(w)
    ensures SignBitMask(word, w) == Pow2(w - 1)
  {
    AllOnesShifted(w, word);
    assert Pow2(w) == 2 * Pow2(w - 1);
    DivModUnique(Pow2(w - 1), Pow2(word), 0, Pow2(w - 1));
  }

  lemma Masks(c: Channel)
    requires Fits(c)
    ensures Pow2(c.width) <= Pow2(c.raw) <= Pow2(64)
    ensures UsedBitMask(64, c.width) % Pow2(c.raw) == Pow2(c.width) - 1
    ensures UnusedBitMask(64, c.width) % Pow2(c.raw) == Pow2(c.raw) - Pow2(c.width)
    ensures SignBitMask(64, c.width) % Pow2(c.raw) == Pow2(c.width - 1)
  {
    hide Pow2, UsedBitMask, UnusedBitMask, SignBitMask;
    Tables(64, c.width);
    RemainderOfComplement(c.width, c.raw, 64 - c.raw);
    Pow2Monotone(c.width, c.raw);
    Pow2Monotone(c.raw, 64);
    Pow2Monotone(c.width - 1, c.width);
    Pow2Double(c.width);
    SmallRemainder(Pow2(c.width) - 1, Pow2(c.raw));
    SmallRemainder(Pow2(c.width - 1), Pow2(c.raw));
  }

  lemma Pow2Double(w: nat)
    requires w > 0
    ensures Pow2(w) == 2 * Pow2(w - 1)
  {
  }

  lemma SmallRemainder(x: nat, d: nat)
    requires x < d
    ensures x % d == x
  {
  }

  function Unused(c: Channel): nat
    requires Fits(c)
  {
    Pow2Monotone(c.width, c.raw);
    Pow2(c.raw) - Pow2(c.width)
  }

  /** The generic path over the masks. */
  lemma GenericIsValue(c: Channel, raw: nat)
    requires Fits(c) && raw < Pow2(c.raw)
    ensures Interpret(Generic, IntType(c.raw, c.signed), if c.signed then Pow2(c.width - 1) else 0, Pow2(c.width) - 1,
                      Unused(c), raw) == Cast(Field(c), raw)
  {
    AndMask(raw, c.width);
    PromotedValue(c, raw);
    if c.signed {
      AndSignBit(raw, c.width);
      if raw % Pow2(c.width) >= Pow2(c.width - 1) { OrUpperBits(raw, c.width, c.raw); }
    }
  }

  /** The used bits with the unused ones forced to zero or one, as a number of the promoted type. */
  lemma PromotedValue(c: Channel, raw: nat)
    requires Fits(c)
    ensures var m, t := raw % Pow2(c.width), IntType(c.raw, c.signed);
            if c.signed && m >= Pow2(c.width - 1) then Cast(t, m + Pow2(c.raw) - Pow2(c.width)) == Cast(Field(c), raw)
            else Cast(t, m) == Cast(Field(c), raw)
  {
    var v := Cast(Field(c), raw);
    WidenRange(Field(c), c.raw, v);
    CastUnique(IntType(c.raw, c.signed), v, v, 0);
    CastUnique(IntType(c.raw, c.signed), v + Pow2(c.raw), v, 1);
  }

  /** The path over the native integer types. */
  lemma NativeIsValue(c: Channel, raw: nat)
    requires Fits(c)
    ensures Interpret(Native(c.width), IntType(c.raw, c.signed),
                      if c.signed then Pow2(c.width - 1) else 0, Pow2(c.width) - 1,
                      Unused(c), raw) == Cast(Field(c), raw)
  {
    WidenRange(Field(c), c.raw, Cast(Field(c), raw));
    CastFits(IntType(c.raw, c.signed), Cast(Field(c), raw));
  }

  /** Whichever path has been selected, the promoted value is the value of the significant bits: two's complement if
      signed, binary otherwise. */
  lemma InterpretIsValue(c: Channel, raw: nat)
    requires Fits(c) && raw < Pow2(c.raw) && Make(c).Some?
    ensures Promote(Make(c).value, raw) == Cast(Field(c), raw)
  {
    hide UsedBitMask, UnusedBitMask, SignBitMask, Interpret, Cast, Xor, Scale, Pow2;
    Masks(c);
    if SelectBits(c.raw, c.width).Generic? {
      GenericIsValue(c, raw);
    } else {
      NativeIsValue(c, raw);
    }
  }

  /** The limits of the significant bits, as raw and as promoted numbers. */
  lemma Limits(c: Channel)
    requires Fits(c) && Make(c).Some?
    ensures var m, f := Make(c).value, Field(c);
            && m.usedBitMask == Pow2(c.width) - 1
            && m.minRaw < Pow2(c.width) && m.maxRaw < Pow2(c.width)
            && m.minPromoted == Cast(f, m.minRaw) == Min(f)
            && m.maxPromoted == Cast(f, m.maxRaw) == Max(f)
  {
    hide UsedBitMask, UnusedBitMask, SignBitMask, SelectBits, Interpret, Cast, Xor, Scale, Pow2;
    Masks(c);
    MinRaw(c);
    MaxRaw(c);
    XorTopBit(c.width);
    InterpretIsValue(c, if c.signed then Pow2(c.width - 1) else 0);
  }

  lemma MinRaw(c: Channel)
    requires Fits(c)
    ensures Cast(Field(c), if c.signed then Pow2(c.width - 1) else 0) == Min(Field(c))
    ensures Pow2(c.width) == 2 * Pow2(c.width - 1)
  {
    if c.signed { CastUnique(Field(c), Pow2(c.width - 1), Min(Field(c)), 1); } else { CastFits(Field(c), 0); }
  }

  lemma MaxRaw(c: Channel)
    requires Fits(c)
    ensures Cast(Field(c), Max(Field(c))) == Max(Field(c)) == Cast(IntType(c.raw, c.signed), Max(Field(c)))
  {
    WidenRange(Field(c), c.raw, Max(Field(c)));
    CastFits(IntType(c.raw, c.signed), Max(Field(c)));
    CastFits(Field(c), Max(Field(c)));
  }

  /** What the conversions rely on in a converter for channel c. */
  ghost predicate Suits(m: Converter, c: Channel)
    requires Fits(c)
  {
    && m.user == c.user && m.raw == c.raw && m.signed == c.signed && m.fc == SelectFraction(c)
    && m.inverseConversionFactor == Scale(c.fractional)
    && m.conversionFactor == Scale(-c.fractional)
    && (c.fractional < 0 ==> m.nNegativeFractionalBits == -c.fractional && c.width - c.fractional <= 64)
    && m.usedBitMask == Pow2(c.width) - 1
    && m.minRaw < Pow2(c.width) && m.maxRaw < Pow2(c.width)
    && m.minPromoted == Cast(Field(c), m.minRaw) == Min(Field(c))
    && m.maxPromoted == Cast(Field(c), m.maxRaw) == Max(Field(c))
    && forall raw :: 0 <= raw < Pow2(c.raw) ==> Promote(m, raw) == Cast(Field(c), raw)
  }

  /** The constructor refuses exactly the channels with more fractional than significant bits and those whose values do
      not fit into 64 bits. Otherwise its masks and limits suit the channel. */
  lemma MakeSuits(c: Channel)
    requires Fits(c)
    ensures Make(c).None? <==> c.fractional > c.width || (c.fractional < 0 && c.width - c.fractional > 64)
    ensures Make(c).Some? ==> Suits(Make(c).value, c)
  {
    hide Interpret, UsedBitMask, UnusedBitMask, SignBitMask, SelectBits, Cast, Xor;
    if Make(c).Some? {
      Limits(c);
      ScaleInverse(c.fractional);
      forall raw | 0 <= raw < Pow2(c.raw)
        ensures Promote(Make(c).value, raw) == Cast(Field(c), raw)
      {
        InterpretIsValue(c, raw);
      }
    }
  }

  /** The constructor has made the converter for the channel; any raw number. */
  ghost predicate ConvertsRaw(m: Converter, c: Channel, raw: nat) {
    Fits(c) && Make(c) == Some(m) && raw < Pow2(c.raw)
  }

  /** The constructor has made the converter for the channel; any value of the user type. */
  ghost predicate ConvertsCooked(m: Converter, c: Channel, x: real) {
    Fits(c) && Make(c) == Some(m) && IsValue(c.user, x)
  }

  // ----- from raw to cooked

  /** x times 2^n. */
  function Scaled(x: real, n: int): real {
    x * Scale(n)
  }

  function HalfStep(n: int): real {
    0.5 * Scale(n)
  }

  lemma ScaleZero()
    ensures Scale(0) == 1.0
  {
  }

  lemma ScaleBack(x: real, n: int)
    ensures Scaled(Scaled(x, -n), n) == x
  {
    ScaleInverse(n);
    assert Scaled(Scaled(x, -n), n) == x * (Scale(n) * Scale(-n));
  }

  function TimesPow2(v: int, k: nat): int { v * Pow2(k) }

  lemma WholeProduct(v: int, k: nat)
    ensures TimesPow2(v, k) as real == Scaled(v as real, k)
  {
  }

  /** The value a raw number stands for. */
  function Value(c: Channel, raw: nat): real
    requires Fits(c)
  {
    Scaled(Cast(Field(c), raw) as real, -c.fractional)
  }

  /** Shift within an integer type of the same signedness which has enough bits. */
  lemma ShiftIsProduct(c: Channel, t: IntType, v: int, k: nat)
    requires Fits(c) && InRange(Field(c), v) && t.signed == c.signed && t.bits >= c.width + k
    ensures Cast(t, v) == v
    ensures InRange(t, TimesPow2(v, k))
    ensures ShiftedIn(t, v, k) == TimesPow2(v, k)
  {
    WidenRange(Field(c), t.bits, v);
    CastFits(t, v);
    ShiftRange(Field(c), k, v);
    WidenRange(IntType(c.width + k, c.signed), t.bits, v * Pow2(k));
    ShiftOfCast(t, k, v);
  }

  /** The shortcut for negative fractional bits gives what the path over 64 bits gives: the value times 2^k, which the
      user type can hold. */
  lemma FastRefinesSlow(m: Converter, c: Channel, raw: nat)
    requires ConvertsRaw(m, c, raw) && m.fc == FixedNegativeFast
    ensures ToCooked(m, raw) == ToCooked(m.(fc := FixedNegative), raw)
    ensures ToCooked(m, raw) == Value(c, raw) == TimesPow2(Cast(Field(c), raw), -c.fractional) as real
    ensures IsValue(c.user, Value(c, raw))
  {
    hide Make, Round, Pow2, Max, Min, Cast, Interpret, TimesPow2, ShiftedIn, Scale;
    MakeSuits(c);
    var v, k, t := Cast(Field(c), raw), -c.fractional, c.user.t;
    ShiftIsProduct(c, t, v, k);
    ShiftIsProduct(c, IntType(64, c.signed), v, k);
    WholeProduct(v, k);
    var y := TimesPow2(v, k) as real;
    RoundWhole(y, TimesPow2(v, k));
    ConvertRepresents(c.user, Integer(IntType(64, c.signed)), y);
  }

  lemma SlowRepresents(m: Converter, c: Channel, raw: nat)
    requires ConvertsRaw(m, c, raw) && m.fc == FixedNegative && c.user.Integer?
    ensures ToCooked(m, raw) == Represent(c.user, Value(c, raw))
  {
    hide Make, Round, Pow2, Max, Min, Cast, Interpret, TimesPow2, ShiftedIn, Scale;
    MakeSuits(c);
    var v, k := Cast(Field(c), raw), -c.fractional;
    ShiftIsProduct(c, IntType(64, c.signed), v, k);
    WholeProduct(v, k);
    ConvertRepresents(c.user, Integer(IntType(64, c.signed)), TimesPow2(v, k) as real);
    assert Promote(m, raw) == v;
    assert m.nNegativeFractionalBits == k;
    assert Value(c, raw) == TimesPow2(v, k) as real;
    assert ToCooked(m, raw) == Convert(c.user, Integer(IntType(64, c.signed)), TimesPow2(v, k) as real);
  }

  /** All five paths of toCooked show the value of the raw number as well as the user type can. */
  lemma ToCookedRepresents(m: Converter, c: Channel, raw: nat)
    requires ConvertsRaw(m, c, raw)
    ensures ToCooked(m, raw) == Represent(c.user, Value(c, raw))
  {
    hide Make, Round, Pow2, Max, Min, Cast, Interpret, Scale;
    MakeSuits(c);
    var v := Cast(Field(c), raw);
    match m.fc
    case FixedNegativeFast =>
      FastRefinesSlow(m, c, raw);
      RoundWhole(Value(c, raw), TimesPow2(v, -c.fractional));
    case FixedNegative =>
      if c.user.Integer? { SlowRepresents(m, c, raw); }
    case FixedPositive =>
      ConvertRepresents(c.user, Floating, Value(c, raw));
    case WholeNumber =>
      WidenRange(Field(c), c.raw, v);
      ScaleZero();
      ConvertRepresents(c.user, Integer(m.Promoted()), v as real);
  }

  // ----- from cooked to raw

  /** Storing a number in the significant bits. */
  lemma MaskedCast(c: Channel, p: int)
    requires Fits(c) && InRange(Field(c), p)
    ensures var r := And(Cast(IntType(c.raw, false), p), Pow2(c.width) - 1);
            r < Pow2(c.width) && Cast(Field(c), r) == p
  {
    var d, e := Pow2(c.width), Pow2(c.raw - c.width);
    var u := Cast(IntType(c.raw, false), p);
    var a := CastPeriod(IntType(c.raw, false), p);
    AndMask(u, c.width);
    Pow2Add(c.width, c.raw - c.width);
    RemainderPeriod(p, u, a, d, e);
    CastUnique(Field(c), u % d, p, -(a * e) - u / d);
  }

  lemma RemainderPeriod(p: int, u: int, a: int, d: int, e: int)
    requires d > 0 && p == u + a * (d * e)
    ensures u % d == p + (-(a * e) - u / d) * d
  {
    assert u == d * (u / d) + u % d;
    assert a * (d * e) == (a * e) * d;
    MulDistributes(d, -(a * e), u / d);
  }

  /** Clamping to the raw type first makes no difference. */
  lemma StoreClamps(m: Converter, c: Channel, y: int)
    requires Fits(c) && Suits(m, c)
    ensures var r := Store(m, Clamp(m.Promoted(), y));
            && r < Pow2(c.width)
            && Cast(Field(c), r) == Clamp(Field(c), y)
  {
    hide Pow2, Cast, Max, Min, And, Interpret, Scale;
    var f := Field(c);
    WidenRange(f, c.raw, m.minPromoted);
    WidenRange(f, c.raw, m.maxPromoted);
    var p := Clamp(m.Promoted(), y);
    if InRange(f, p) {
      MaskedCast(c, p);
    }
  }

  lemma PromotedCookedRepresents(m: Converter, c: Channel, x: real)
    requires ConvertsCooked(m, c, x)
    ensures PromotedCooked(m, x) == Clamp(m.Promoted(), Round(Scaled(x, c.fractional))) as real
  {
    hide Make, Round, Pow2, Cast, Interpret, Clamp, Max, Min, Scale;
    MakeSuits(c);
    var y := Scaled(x, c.fractional);
    ScaleZero();
    if m.fc == WholeNumber {
      assert c.fractional == 0 && y == x;
      ConvertRepresents(Integer(m.Promoted()), c.user, x);
    } else {
      assert InSteps(m, x) == y;
      ConvertRepresents(Integer(m.Promoted()), Floating, InSteps(m, x));
    }
  }

  /** toRaw rounds to the nearest multiple of 2^-n and saturates at the limits of the significant bits. */
  lemma ToRawRepresents(m: Converter, c: Channel, x: real)
    requires ConvertsCooked(m, c, x)
    ensures var r := ToRaw(m, x);
            && r < Pow2(c.width)
            && Cast(Field(c), r) == Clamp(Field(c), Round(Scaled(x, c.fractional)))
  {
    hide Make, Round, Pow2, Cast, Interpret, Store, Clamp, Max, Min, Scale, PromotedCooked;
    MakeSuits(c);
    PromotedCookedRepresents(m, c, x);
    StoreClamps(m, c, Round(Scaled(x, c.fractional)));
  }

  lemma CastInjective(t: IntType, r: nat, raw: nat)
    requires r < Pow2(t.bits) && Cast(t, r) == Cast(t, raw)
    ensures r == raw % Pow2(t.bits)
  {
    DivModUnique(r, Pow2(t.bits), 0, r);
  }

  /** A raw number whose value the user type can hold comes back, with the unused bits cleared. */
  lemma RawSurvives(m: Converter, c: Channel, raw: nat)
    requires ConvertsRaw(m, c, raw) && IsValue(c.user, Value(c, raw))
    ensures ToCooked(m, raw) == Value(c, raw)
    ensures ToRaw(m, ToCooked(m, raw)) == raw % Pow2(c.width)
  {
    hide Make, Round, Pow2, Cast, Interpret, Scale, ToRaw, ToCooked, Max, Min;
    MakeSuits(c);
    var v, x := Cast(Field(c), raw), Value(c, raw);
    ToCookedRepresents(m, c, raw);
    if c.user.Integer? { RoundWhole(x, x.Floor); }
    ToRawRepresents(m, c, x);
    ScaleBack(v as real, c.fractional);
    RoundWhole(Scaled(x, c.fractional), v);
    CastInjective(Field(c), ToRaw(m, x), raw);
  }

  /** What is shown is within half a step of the value, or the value is a limit of the register and what is shown lies
      beyond it. */
  predicate CloseEnough(c: Channel, raw: nat)
    requires Fits(c)
  {
    var v, u := Cast(Field(c), raw), Value(c, raw);
    var x := Represent(c.user, u);
    || (-HalfStep(-c.fractional) <= x - u <= HalfStep(-c.fractional))
    || (v == Max(Field(c)) && x > u)
    || (v == Min(Field(c)) && x < u)
  }

  lemma Compared(x: real, u: real, v: int, n: int)
    requires u == Scaled(v as real, -n)
    ensures x > u <==> Scaled(x, n) > v as real
    ensures x < u <==> Scaled(x, n) < v as real
    ensures -HalfStep(-n) <= x - u <= HalfStep(-n) <==> -0.5 <= Scaled(x, n) - v as real <= 0.5
  {
    var p, q := Scale(n), Scale(-n);
    ScaleInverse(n);
    ComparedScaled(x, u, v as real, p, q);
  }

  lemma ComparedScaled(x: real, u: real, v: real, p: real, q: real)
    requires p > 0.0 && q > 0.0 && p * q == 1.0 && u == v * q
    ensures x > u <==> x * p > v
    ensures x < u <==> x * p < v
    ensures -0.5 * q <= x - u <= 0.5 * q <==> -0.5 <= x * p - v <= 0.5
  {
    var d := x * p - v;
    Distributes(x * p, v, q);
    assert x * p * q == x * (p * q);
    assert d * q == x - u;
    Distributes(d, 0.5, q);
    Distributes(d, -0.5, q);
    ProductSign(d, q);
    ProductSign(d - 0.5, q);
    ProductSign(d - -0.5, q);
  }

  lemma Distributes(a: real, b: real, q: real)
    ensures (a - b) * q == a * q - b * q
  {
  }

  lemma ProductSign(d: real, q: real)
    requires q > 0.0
    ensures d > 0.0 <==> d * q > 0.0
    ensures d < 0.0 <==> d * q < 0.0
  {
  }

  lemma RoundsTo(z: real, v: int)
    requires z - v as real == 0.5 ==> v < 0
    requires z - v as real == -0.5 ==> v > 0
    ensures Round(z) == v <==> -0.5 <= z - v as real <= 0.5
    ensures Round(z) > v ==> z > v as real
    ensures Round(z) < v ==> z < v as real
    ensures z > v as real ==> Round(z) >= v
    ensures z < v as real ==> Round(z) <= v
  {
  }

  /** A tie arises only from clamping to the user type, that is, on the side of zero. */
  lemma NoWrongTie(v: int, n: int, t: IntType)
    ensures var z := Scaled(Clamp(t, Round(Scaled(v as real, -n))) as real, n);
            && (z - v as real == 0.5 ==> v < 0)
            && (z - v as real == -0.5 ==> v > 0)
  {
    if n >= 0 {
      NoTieInWhole(v, n, Clamp(t, Round(Scaled(v as real, -n))));
    } else {
      NoTieBeyond(v, n, t);
    }
  }

  lemma NoTieInWhole(v: int, k: nat, i: int)
    ensures Scaled(i as real, k) - v as real != 0.5 && Scaled(i as real, k) - v as real != -0.5
  {
    hide Scale, TimesPow2;
    WholeProduct(i, k);
  }

  lemma NoTieBeyond(v: int, n: int, t: IntType)
    requires n < 0
    ensures var z := Scaled(Clamp(t, Round(Scaled(v as real, -n))) as real, n);
            && (z - v as real == 0.5 ==> v < 0)
            && (z - v as real == -0.5 ==> v > 0)
  {
    hide Round, Scale, Clamp;
    var u := Scaled(v as real, -n);
    ClampTowardsZero(t, v, -n, u);
    Compared(0.0, u, v, n);
    Compared(Clamp(t, Round(u)) as real, u, v, n);
  }

  lemma ClampTowardsZero(t: IntType, v: int, k: nat, u: real)
    requires u == Scaled(v as real, k)
    ensures var i := Clamp(t, Round(u)) as real;
            (u >= 0.0 ==> 0.0 <= i <= u) && (u <= 0.0 ==> u <= i <= 0.0)
  {
    hide Round, Scale, Pow2, TimesPow2;
    WholeProduct(v, k);
    RoundWhole(u, TimesPow2(v, k));
  }

  /** Clamping to the register after rounding. */
  lemma ClampedRound(f: IntType, v: int, z: real)
    requires InRange(f, v)
    requires z - v as real == 0.5 ==> v < 0
    requires z - v as real == -0.5 ==> v > 0
    ensures Clamp(f, Round(z)) == v <==>
              || -0.5 <= z - v as real <= 0.5
              || (v == Max(f) && z > v as real)
              || (v == Min(f) && z < v as real)
  {
    hide Round, Max, Min;
    RoundsTo(z, v);
  }

  lemma CloseEnoughScaled(c: Channel, raw: nat)
    requires Fits(c)
    ensures var v := Cast(Field(c), raw);
            var z := Scaled(Represent(c.user, Value(c, raw)), c.fractional);
            && (Clamp(Field(c), Round(z)) == v <==> CloseEnough(c, raw))
  {
    hide Round, Pow2, Cast, Scale, Max, Min, Clamp;
    var v, u, n := Cast(Field(c), raw), Value(c, raw), c.fractional;
    var x := Represent(c.user, u);
    if c.user.Integer? {
      NoWrongTie(v, n, c.user.t);
    } else {
      ScaleBack(v as real, n);
    }
    Compared(x, u, v, n);
    var z := Scaled(x, n);
    assert z - v as real == 0.5 ==> v < 0;
    assert z - v as real == -0.5 ==> v > 0;
    ClampedRound(Field(c), v, z);
  }

  /** Exactly which raw numbers come back. */
  lemma RawSurvivesIff(m: Converter, c: Channel, raw: nat)
    requires ConvertsRaw(m, c, raw)
    ensures ToRaw(m, ToCooked(m, raw)) == raw % Pow2(c.width) <==> CloseEnough(c, raw)
  {
    hide Make, Round, Pow2, Cast, Interpret, ToRaw, ToCooked, Scale, Clamp, Max, Min, CloseEnough;
    MakeSuits(c);
    var x := Represent(c.user, Value(c, raw));
    ToCookedRepresents(m, c, raw);
    RepresentIsValue(c.user, Value(c, raw));
    ToRawRepresents(m, c, x);
    CloseEnoughScaled(c, raw);
    CastMod(Field(c), raw);
    if Cast(Field(c), ToRaw(m, ToCooked(m, raw))) == Cast(Field(c), raw) {
      CastInjective(Field(c), ToRaw(m, ToCooked(m, raw)), raw);
    }
  }

  lemma RepresentIsValue(n: NumType, x: real)
    ensures IsValue(n, Represent(n, x))
  {
    ConvertRepresents(n, Floating, x);
  }

  lemma CastMod(t: IntType, raw: nat)
    ensures Cast(t, raw % Pow2(t.bits)) == Cast(t, raw)
  {
    DivModUnique(raw % Pow2(t.bits), Pow2(t.bits), 0, raw % Pow2(t.bits));
  }

  /** Integers written to a register without fractional bits are read back, clamped to what the register can hold. */
  lemma IntegerRoundTrip(m: Converter, c: Channel, x: int)
    requires ConvertsCooked(m, c, x as real) && c.fractional == 0
    ensures ToCooked(m, ToRaw(m, x as real)) == Clamp(Field(c), x) as real
  {
    hide Make, Round, Pow2, Cast, Interpret, ToRaw, ToCooked;
    MakeSuits(c);
    var r := ToRaw(m, x as real);
    ToRawRepresents(m, c, x as real);
    ScaleZero();
    RoundWhole(Scaled(x as real, 0), x);
    Pow2Monotone(c.width, c.raw);
    ToCookedRepresents(m, c, r);
    assert Value(c, r) == Clamp(Field(c), x) as real;
    RoundWhole(Value(c, r), Clamp(Field(c), x));
    if c.user.Integer? {
      assert Min(c.user.t) <= 0 <= Max(c.user.t);
      assert Min(Field(c)) <= 0 <= Max(Field(c));
    }
  }

  /** A number within the range comes back with an error of at most half a step, whatever the user type. An integer
      comes back exactly if the register has no steps greater than 1. */
  lemma QuantisationBound(m: Converter, c: Channel, x: real)
    requires ConvertsCooked(m, c, x)
    requires Min(Field(c)) as real <= Scaled(x, c.fractional) <= Max(Field(c)) as real
    ensures var x' := ToCooked(m, ToRaw(m, x));
            -HalfStep(-c.fractional) <= x - x' <= HalfStep(-c.fractional)
    ensures c.user.Integer? && c.fractional >= 0 ==> ToCooked(m, ToRaw(m, x)) == x
  {
    hide Make, Round, Pow2, Cast, Interpret, ToRaw, ToCooked, Max, Min, Scale, Clamp, HalfStep;
    MakeSuits(c);
    var r, y := ToRaw(m, x), Scaled(x, c.fractional);
    ToRawRepresents(m, c, x);
    InRangeStays(Field(c), y);
    Pow2Monotone(c.width, c.raw);
    ToCookedRepresents(m, c, r);
    if c.user.Floating? {
      StepError(x, c.fractional);
    } else {
      StepErrorInteger(c.user.t, x, c.fractional);
    }
  }

  lemma InRangeStays(f: IntType, y: real)
    requires Min(f) as real <= y <= Max(f) as real
    ensures Clamp(f, Round(y)) == Round(y)
  {
    hide Round, Max, Min;
    RoundBetween(Min(f), y, Max(f));
  }

  /** Rounding to a multiple of 2^-n. */
  lemma StepError(x: real, n: int)
    ensures -HalfStep(-n) <= x - Scaled(Round(Scaled(x, n)) as real, -n) <= HalfStep(-n)
  {
    hide Round, Scale, HalfStep;
    var y, k := Scaled(x, n), -n;
    assert n == -k;
    RoundHalf(y);
    ScaleBack(x, k);
    ErrorScaled(y, Round(y) as real, k);
  }

  /** The same for an integer, shown as an integer of the same type. */
  lemma StepErrorInteger(t: IntType, x: real, n: int)
    requires IsValue(Integer(t), x)
    ensures var u := Scaled(Round(Scaled(x, n)) as real, -n);
            && -HalfStep(-n) <= x - Represent(Integer(t), u) <= HalfStep(-n)
            && (n >= 0 ==> Represent(Integer(t), u) == x)
  {
    hide Round, Scale, Scaled, HalfStep, Pow2, TimesPow2, Max, Min;
    var y := Scaled(x, n);
    var u := Scaled(Round(y) as real, -n);
    StepError(x, n);
    if n >= 0 {
      WholeSteps(x.Floor, n);
      RoundWhole(x, x.Floor);
      assert u == x;
      HalfStepPositive(-n);
    } else {
      WholeSteps(Round(y), -n);
      RoundWhole(u, TimesPow2(Round(y), -n));
    }
  }

  lemma HalfStepPositive(n: int)
    ensures HalfStep(n) > 0.0
  {
  }

  /** Multiplying an integer by 2^n gives an integer, from which it can be recovered. */
  lemma WholeSteps(i: int, n: int)
    requires n >= 0
    ensures Scaled(i as real, n) == TimesPow2(i, n) as real
    ensures Round(Scaled(i as real, n)) == TimesPow2(i, n)
    ensures Scaled(Round(Scaled(i as real, n)) as real, -n) == i as real
  {
    hide Round, Scale, Pow2, TimesPow2;
    WholeProduct(i, n);
    RoundWhole(Scaled(i as real, n), TimesPow2(i, n));
    var k: int := -n;
    assert n == -k;
    ScaleBack(i as real, k);
  }

  lemma ErrorScaled(y: real, z: real, n: int)
    requires -0.5 <= y - z <= 0.5
    ensures -HalfStep(n) <= Scaled(y, n) - Scaled(z, n) <= HalfStep(n)
  {
    ErrorTimes(y, z, Scale(n), Scaled(y, n), Scaled(z, n), HalfStep(n));
  }

  lemma ErrorTimes(y: real, z: real, s: real, ys: real, zs: real, h: real)
    requires s > 0.0 && -0.5 <= y - z <= 0.5
    requires ys == y * s && zs == z * s && h == 0.5 * s
    ensures -h <= ys - zs <= h
  {
    var d := y - z;
    var ds := d * s;
    DifferenceTimes(d, y, z, s);
    HalfTimes(d, s);
    assert ds == ys - zs;
  }

  lemma DifferenceTimes(d: real, a: real, b: real, s: real)
    requires d == a - b
    ensures d * s == a * s - b * s
  {
  }

  lemma HalfTimes(d: real, s: real)
    requires -0.5 <= d <= 0.5 && s > 0.0
    ensures d * s <= 0.5 * s
    ensures 0.0 - d * s <= 0.5 * s
  {
    TimesMonotone(d, 0.5, s);
    TimesMonotone(-0.5, d, s);
  }

  lemma TimesMonotone(a: real, b: real, s: real)
    requires a <= b && s >= 0.0
    ensures a * s <= b * s
  {
  }

  lemma ScaledMonotone(x: real, y: real, n: int)
    requires x <= y
    ensures Scaled(x, n) <= Scaled(y, n)
  {
    ProductSign(x - y, Scale(n));
    Distributes(x, y, Scale(n));
  }

  /** toRaw is monotone in the value of the raw number. */
  lemma ToRawMonotone(m: Converter, c: Channel, x: real, y: real)
    requires ConvertsCooked(m, c, x) && ConvertsCooked(m, c, y) && x <= y
    ensures Cast(Field(c), ToRaw(m, x)) <= Cast(Field(c), ToRaw(m, y))
  {
    hide Make, Round, Pow2, Cast, Interpret, ToRaw, ToCooked, Max, Min, Scale;
    MakeSuits(c);
    ToRawRepresents(m, c, x);
    ToRawRepresents(m, c, y);
    ScaledMonotone(x, y, c.fractional);
    RoundMonotone(Scaled(x, c.fractional), Scaled(y, c.fractional));
  }

  /** Beyond the limits toRaw gives the largest and the smallest raw number. */
  lemma ToRawSaturates(m: Converter, c: Channel, x: real)
    requires ConvertsCooked(m, c, x)
    ensures Scaled(x, c.fractional) >= Max(Field(c)) as real ==>
              ToRaw(m, x) == if c.signed then Pow2(c.width - 1) - 1 else Pow2(c.width) - 1
    ensures Scaled(x, c.fractional) <= Min(Field(c)) as real ==>
              ToRaw(m, x) == if c.signed then Pow2(c.width - 1) else 0
  {
    hide Make, Round, Pow2, Cast, Interpret, ToRaw, Scaled, Max, Min;
    MakeSuits(c);
    var y := Scaled(x, c.fractional);
    ToRawRepresents(m, c, x);
    RoundBetween(Min(Field(c)), y, Max(Field(c)));
    LimitPatterns(c, ToRaw(m, x));
  }

  lemma LimitPatterns(c: Channel, r: nat)
    requires Fits(c) && r < Pow2(c.width)
    ensures Min(Field(c)) <= Max(Field(c))
    ensures Cast(Field(c), r) == Max(Field(c)) ==> r == if c.signed then Pow2(c.width - 1) - 1 else Pow2(c.width) - 1
    ensures Cast(Field(c), r) == Min(Field(c)) ==> r == if c.signed then Pow2(c.width - 1) else 0
  {
    SmallRemainder(r, Pow2(c.width));
    Pow2Double(c.width);
  }
}
