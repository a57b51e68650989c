/**
 Conversion between extended precision and 32-bit integers, in all four rounding modes
 (sections 4.1, 4.2 and 5.4 of IEEE 754-1985).
 */
module Integers {
  import opened Powers
  import opened Words128
  import opened Shifts
  import opened Xfp
  import opened RoundPack
  import opened Doubles

  /** `n` is the magnitude num/den, of the given sign, rounded to an integer. */
  predicate IsRounded(rm: RoundMode, sign: bool, n: nat, num: nat, den: nat) {
    var down := n * den <= num < n * den + den;
    var up := num <= n * den < num + den;
    match rm
    case Nearest => 2 * Dist(num, n * den) <= den && (2 * Dist(num, n * den) == den ==> n % 2 == 0)
    case Zero => down
    case PlusInf => if sign then down else up
    case MinusInf => if sign then up else down
  }

  /** There is only one correctly rounded integer. */
  lemma RoundedUnique(rm: RoundMode, sign: bool, m: nat, n: nat, num: nat, den: nat)
    requires den > 0 && IsRounded(rm, sign, m, num, den) && IsRounded(rm, sign, n, num, den)
    ensures m == n
  {
    if m < n {
      RoundedNotBelow(rm, sign, m, n, num, den);
    } else if n < m {
      RoundedNotBelow(rm, sign, n, m, num, den);
    }
  }

  lemma RoundedNotBelow(rm: RoundMode, sign: bool, m: nat, n: nat, num: nat, den: nat)
    requires den > 0 && m < n && IsRounded(rm, sign, m, num, den)
    ensures !IsRounded(rm, sign, n, num, den)
  {
    assert (m + 1) * den == m * den + den;
    MulLe(m + 1, n, den);
    if m + 1 < n {
      assert (m + 2) * den == m * den + 2 * den;
      MulLe(m + 2, n, den);
    }
  }

  function XfpToInt(x: Xfp, rm: RoundMode): (p: Packed<int>)
    requires Finite(x)
  {
    var shift := if x.exp < 0x4037 then 0x4037 - x.exp else 1;
    RoundPackInt(x.sign, ShiftRight64Jamming(x.frac, shift), rm)
  }

  // ------------------------------------------------------------ the rounding decision

  /** The integer RoundPackInt settles on before the range check. */
  function RoundedFrac(sign: bool, g: nat, rm: RoundMode): nat {
    var f := (g + IntIncrement(sign, rm)) / 0x80;
    if g % 0x80 == 0x40 && rm == Nearest then f - f % 2 else f
  }

  /**
   `g` counts units d in num, 128 to the integer, with anything below a unit jammed into
   its lowest bit; then RoundedFrac is the correctly rounded integer.
   */
  lemma IntDecision(sign: bool, q: nat, lost: bool, d: nat, num: nat, rm: RoundMode)
    requires d > 0 && q * d <= num < (q + 1) * d && (lost <==> num != q * d)
    ensures var g := Jam(q, lost);
            var n := RoundedFrac(sign, g, rm);
            && IsRounded(rm, sign, n, num, 0x80 * d)
            && (num == n * (0x80 * d) <==> g % 0x80 == 0)
  {
    var f, bits := q / 0x80, q % 0x80;
    var g := Jam(q, lost);
    assert q == 0x80 * f + bits;
    JamBits(q, lost);
    WholeUnits(f, bits, d);
    var n := RoundedFrac(sign, g, rm);
    FracChoice(sign, f, g, rm);
    assert (f + 1) * (0x80 * d) == f * (0x80 * d) + 0x80 * d;
    Settle(f * (0x80 * d), bits * d, d, bits, g % 0x80, f, lost, num, sign, rm);
  }

  lemma JamBits(q: nat, lost: bool)
    ensures var g := Jam(q, lost);
            && g / 0x80 == q / 0x80
            && g % 0x80 == (if lost && (q % 0x80) % 2 == 0 then q % 0x80 + 1 else q % 0x80)
  {
    var f, bits := q / 0x80, q % 0x80;
    DivModBasics(q, 0x80);
    assert q == 2 * (0x40 * f) + bits;
    assert q % 2 == bits % 2;
    if lost && bits % 2 == 0 {
      DivUnique(q + 1, 0x80, f);
    }
  }

  lemma WholeUnits(f: nat, bits: nat, d: nat)
    requires bits < 0x80
    ensures (0x80 * f + bits) * d == f * (0x80 * d) + bits * d
    ensures (0x80 * f + bits + 1) * d == f * (0x80 * d) + bits * d + d
    ensures bits < 0x40 ==> bits * d + d <= 0x40 * d
    ensures bits > 0x40 ==> bits * d >= 0x41 * d
    ensures bits > 0 ==> bits * d >= d
    ensures bits * d + d <= 0x80 * d
  {
    MulLe(bits + 1, 0x80, d);
    if bits < 0x40 { MulLe(bits + 1, 0x40, d); }
    if bits > 0x40 { MulLe(0x41, bits, d); }
    if bits > 0 { MulLe(1, bits, d); }
  }

  /** Whether the integer part is incremented. */
  predicate GoesUp(sign: bool, bits: nat, odd: bool, rm: RoundMode) {
    match rm
    case Nearest => bits > 0x40 || (bits == 0x40 && odd)
    case Zero => false
    case PlusInf => !sign && bits > 0
    case MinusInf => sign && bits > 0
  }

  lemma FracChoice(sign: bool, f: nat, g: nat, rm: RoundMode)
    requires f == g / 0x80
    ensures RoundedFrac(sign, g, rm) == f + Bit(GoesUp(sign, g % 0x80, f % 2 == 1, rm))
  {
    var inc, bits := IntIncrement(sign, rm), g % 0x80;
    assert g == 0x80 * f + bits;
    DivUnique(g + inc, 0x80, if bits + inc < 0x80 then f else f + 1);
  }

  lemma Settle(x: int, y: int, d: int, bits: nat, jammed: nat, f: nat, lost: bool, num: nat, sign: bool, rm: RoundMode)
    requires d > 0 && bits < 0x80 && x >= 0 && 0 <= y && x + y <= num < x + y + d && y + d <= 0x80 * d
    requires x == f * (0x80 * d) && (f + 1) * (0x80 * d) == x + 0x80 * d
    requires bits < 0x40 ==> y + d <= 0x40 * d
    requires bits == 0x40 ==> y == 0x40 * d
    requires bits > 0x40 ==> y >= 0x41 * d
    requires if bits > 0 then y >= d else y == 0
    requires lost <==> num != x + y
    requires jammed == if lost && bits % 2 == 0 then bits + 1 else bits
    ensures var n := f + Bit(GoesUp(sign, jammed, f % 2 == 1, rm));
            && IsRounded(rm, sign, n, num, 0x80 * d)
            && (num == n * (0x80 * d) <==> jammed == 0)
  {
  }

  // ------------------------------------------------------------ the range check

  /** The integer of magnitude `n`, or the nearest limit with the overflow flag. */
  function Saturated(sign: bool, n: nat, inexact: bool): Packed<int> {
    var v := if sign then -(n as int) else n;
    if v > INT_MAX then Packed(INT_MAX, {IntOverflow, Inexact})
    else if v < INT_MIN then Packed(INT_MIN, {IntOverflow, Inexact})
    else Packed(v, When(inexact, Inexact))
  }

  lemma RangeCheck(sign: bool, g: U64, rm: RoundMode)
    requires g < TWO63
    ensures RoundPackInt(sign, g, rm) == Saturated(sign, RoundedFrac(sign, g, rm), g % 0x80 != 0)
  {
    hide AsInt32, IntIncrement;
    assert IntIncrement(sign, rm) <= 0x7f by { IncrementBound(sign, rm); }
    DivUnique(g + IntIncrement(sign, rm), TWO64, 0);
    TestLimits(sign, RoundedFrac(sign, g, rm));
  }

  lemma IncrementBound(sign: bool, rm: RoundMode)
    ensures IntIncrement(sign, rm) <= 0x7f
  {
  }

  /** The source's test on the truncated and negated word detects exactly the range. */
  lemma TestLimits(sign: bool, f: nat)
    ensures var r0 := AsInt32(f);
            var r := if sign then AsInt32(-r0) else r0;
            var v := if sign then -(f as int) else f;
            && ((f / TWO32 != 0 || (r != 0 && (r < 0) != sign)) <==> !(INT_MIN <= v <= INT_MAX))
            && (INT_MIN <= v <= INT_MAX ==> r == v)
  {
    if f < TWO32 {
      DivUnique(f, TWO32, 0);
      var r0 := AsInt32(f);
      if r0 < 0 { DivUnique(-r0, TWO32, 0); } else { DivUnique(-r0, TWO32, if r0 == 0 then 0 else -1); }
    } else {
      DivModBasics(f, TWO32);
    }
  }

  // ------------------------------------------------------------ the conversion

  /** A value below 2^56 counted in 128ths: quotient of the shift, and whether it lost bits. */
  lemma HundredTwentyEighths(x: Xfp)
    requires Canonical(x) && x.exp < 0x4037
    ensures var c := 0x4037 - x.exp;
            var q, lost, d := Shr(x.frac, c), x.frac % Pow2(c) != 0, Pow2(UNIT_SHIFT - 7);
            && q * d <= Mag(x) < (q + 1) * d && (lost <==> Mag(x) != q * d)
  {
    hide Pow2;
    var c, d := 0x4037 - x.exp, Pow2(UNIT_SHIFT - 7);
    if x.exp == 0 {
      assert Pow2(0) == 1 by { Pow2Small(); }
      WholeWordShift(x.frac, c);
      assert d >= TWO64 by { Pow2Monotone(64, UNIT_SHIFT - 7); Pow2Words(); }
    } else {
      assert Pow2(c) * Ulp(x) == d by { Pow2Add(c, x.exp - 1); }
      assert (x.frac + 1) * Ulp(x) == Mag(x) + Ulp(x);
      Coarsen(x.frac, Pow2(c), Ulp(x), Mag(x), false);
    }
  }

  lemma IntegerUnit()
    ensures 0x80 * Pow2(UNIT_SHIFT - 7) == Pow2(UNIT_SHIFT)
  {
    hide Pow2;
    Pow2Add(7, UNIT_SHIFT - 7);
    Pow2Small();
  }

  /** From 2^56 on, the exact value is far out of range. */
  lemma HugeMagnitude(x: Xfp)
    requires Canonical(x) && x.exp >= 0x4037
    ensures TWO32 * Pow2(UNIT_SHIFT) + Pow2(UNIT_SHIFT) <= Mag(x)
  {
    hide Pow2;
    var p := Pow2(0x4036);
    Pow2Monotone(0x4036, x.exp - 1);
    MulLe(TWO63, x.frac, Ulp(x));
    MulLe(p, Ulp(x), TWO63);
    assert Pow2(UNIT_SHIFT) == 0x80 * p by { IntegerUnit(); }
  }

  lemma HugeRounded(rm: RoundMode, sign: bool, n: nat, num: nat, den: nat)
    requires den > 0 && IsRounded(rm, sign, n, num, den) && TWO32 * den + den <= num
    ensures n >= TWO32
  {
    assert (n + 1) * den == n * den + den;
    if n < TWO32 { MulLe(n + 1, TWO32, den); }
  }

  /** The routine's own estimate is far out of range too. */
  lemma HugeEstimate(x: Xfp, rm: RoundMode)
    requires x.frac >= TWO63
    ensures RoundedFrac(x.sign, ShiftRight64Jamming(x.frac, 1), rm) >= TWO32
  {
    hide ShiftRight64Jamming, RoundedFrac, Jam;
    JamSpec(x.frac, 1);
    assert Shr(x.frac, 1) == x.frac / 2 by { Pow2Small(); }
    LargeEstimate(x.sign, ShiftRight64Jamming(x.frac, 1), rm);
  }

  lemma LargeEstimate(sign: bool, g: nat, rm: RoundMode)
    requires g >= 0x80 * (TWO32 + 1)
    ensures RoundedFrac(sign, g, rm) >= TWO32
  {
    DivModBasics(g + IntIncrement(sign, rm), 0x80);
  }

  /**
   The conversion delivers the correctly rounded integer in every mode, saturates with the
   integer-overflow flag iff that integer is out of range, and otherwise raises Inexact iff
   the value is not an integer.  `n` is the rounded magnitude.
   */
  lemma XfpToIntCorrect(x: Xfp, rm: RoundMode) returns (n: nat)
    requires Canonical(x)
    ensures IsRounded(rm, x.sign, n, Mag(x), Pow2(UNIT_SHIFT))
    ensures XfpToInt(x, rm) == Saturated(x.sign, n, Mag(x) != n * Pow2(UNIT_SHIFT))
  {
    hide Pow2, IsRounded, RoundedFrac, Saturated, ShiftRight64Jamming, RoundPackInt;
    if x.exp < 0x4037 {
      n := ConvertInRange(x, rm);
    } else {
      n := ConvertHuge(x, rm);
    }
  }

  lemma ConvertInRange(x: Xfp, rm: RoundMode) returns (n: nat)
    requires Canonical(x) && x.exp < 0x4037
    ensures IsRounded(rm, x.sign, n, Mag(x), Pow2(UNIT_SHIFT))
    ensures RoundPackInt(x.sign, ShiftRight64Jamming(x.frac, 0x4037 - x.exp), rm)
         == Saturated(x.sign, n, Mag(x) != n * Pow2(UNIT_SHIFT))
  {
    hide Pow2, IsRounded, RoundedFrac, ShiftRight64Jamming, RoundPackInt, Mag, Jam;
    var c, d := 0x4037 - x.exp, Pow2(UNIT_SHIFT - 7);
    var q, lost := Shr(x.frac, c), x.frac % Pow2(c) != 0;
    HundredTwentyEighths(x);
    JamSpec(x.frac, c);
    IntDecision(x.sign, q, lost, d, Mag(x), rm);
    IntegerUnit();
    RangeCheck(x.sign, Jam(q, lost), rm);
    n := RoundedFrac(x.sign, Jam(q, lost), rm);
  }

  lemma ConvertHuge(x: Xfp, rm: RoundMode) returns (n: nat)
    requires Canonical(x) && x.exp >= 0x4037
    ensures IsRounded(rm, x.sign, n, Mag(x), Pow2(UNIT_SHIFT))
    ensures RoundPackInt(x.sign, ShiftRight64Jamming(x.frac, 1), rm)
         == Saturated(x.sign, n, Mag(x) != n * Pow2(UNIT_SHIFT))
  {
    hide Pow2, IsRounded, RoundedFrac, ShiftRight64Jamming, RoundPackInt, Mag;
    n := RoundAny(x.sign, Mag(x), Pow2(UNIT_SHIFT - 7), rm);
    IntegerUnit();
    HugeMagnitude(x);
    HugeRounded(rm, x.sign, n, Mag(x), Pow2(UNIT_SHIFT));
    HugeEstimate(x, rm);
    JamSpec(x.frac, 1);
    RangeCheck(x.sign, ShiftRight64Jamming(x.frac, 1), rm);
  }

  /** A correctly rounded integer always exists. */
  lemma RoundAny(sign: bool, num: nat, d: nat, rm: RoundMode) returns (n: nat)
    requires d > 0
    ensures IsRounded(rm, sign, n, num, 0x80 * d)
  {
    hide IsRounded, RoundedFrac, Jam;
    var q := Shr1(num, d);
    IntDecision(sign, q, num != q * d, d, num, rm);
    n := RoundedFrac(sign, Jam(q, num != q * d), rm);
  }

  function Shr1(num: nat, d: nat): (q: nat)
    requires d > 0
    ensures q * d <= num < (q + 1) * d
  {
    DivModBasics(num, d);
    QuotientBound(num, d);
    num / d
  }

  /**
   Every 32-bit integer widens exactly, and converting it back gives the same integer in
   every rounding mode without raising anything.  Negating the most negative integer wraps.
   */
  method IntToXfp(val: int) returns (x: Xfp)
    requires INT_MIN <= val <= INT_MAX
    ensures Canonical(x) && !x.sticky && x.sign == (val < 0)
    ensures SignedMag(x) == val * Pow2(UNIT_SHIFT)
    ensures forall rm :: XfpToInt(x, rm) == Packed(val, {})
  {
    hide Pow2, XfpToInt;
    if val == 0 {
      x := Xfp(false, 0, 0, false);
    } else {
      var sign := val < 0;
      var absVal := if sign then -val else val;
      var shift := LeadingZeros32(absVal);
      x := Xfp(sign, 0x401e - shift, (absVal * Pow2(shift)) * TWO32, false);
      IntegerMag(absVal, shift);
    }
    forall rm ensures XfpToInt(x, rm) == Packed(val, {}) {
      WholeNumber(x, val, rm);
    }
  }

  lemma IntegerMag(a: nat, s: nat)
    requires s <= 31
    ensures (a * Pow2(s)) * TWO32 * Pow2(0x401e - s - 1) == a * Pow2(UNIT_SHIFT)
  {
    hide Pow2;
    var r := Pow2(0x401e - s - 1);
    Pow2Add(s, 32);
    Pow2Add(s + 32, 0x401e - s - 1);
    assert Pow2(32) == TWO32 by { Pow2Words(); }
    MulAssoc(a, Pow2(s), TWO32);
    MulAssoc(a, Pow2(s) * TWO32, r);
  }

  /** A value that is an integer in range converts to that integer. */
  lemma WholeNumber(x: Xfp, val: int, rm: RoundMode)
    requires Canonical(x) && INT_MIN <= val <= INT_MAX
    requires x.sign == (val < 0) && SignedMag(x) == val * Pow2(UNIT_SHIFT)
    ensures XfpToInt(x, rm) == Packed(val, {})
  {
    hide Pow2, XfpToInt, IsRounded, Mag;
    var n := XfpToIntCorrect(x, rm);
    var m := if val < 0 then -val else val;
    assert Mag(x) == m * Pow2(UNIT_SHIFT);
    ExactIsRounded(rm, x.sign, m, Pow2(UNIT_SHIFT));
    RoundedUnique(rm, x.sign, m, n, Mag(x), Pow2(UNIT_SHIFT));
  }

  lemma ExactIsRounded(rm: RoundMode, sign: bool, m: nat, den: nat)
    requires den > 0
    ensures IsRounded(rm, sign, m, m * den, den)
  {
  }
}
