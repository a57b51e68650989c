/**
 Rounding and packing of results: extended precision (truncation with a sticky flag),
 double precision and 32-bit integers.
 */
module RoundPack {
  import opened Powers
  import opened Words128
  import opened Shifts
  import opened Xfp

  /** A packed result and the conditions raised on the way. */
  datatype Packed<T> = Packed(value: T, raised: set<Cond>)

  function When(b: bool, c: Cond): set<Cond> {
    if b then {c} else {}
  }

  // ---------------------------------------------------------------- extended precision

  /** The 16-bit shift count of the source limits how far below the range `exp` may be. */
  function RoundPackXfp(sign: bool, exp: int, fracA: U64, fracB: U64, rm: RoundMode): (p: Packed<Xfp>)
    requires exp >= -0x7ffe
  {
    if exp > 0x7ffe then
      var toMax := rm == Zero || (sign && rm == PlusInf) || (!sign && rm == MinusInf);
      Packed(if toMax then Xfp(sign, 0x7ffe, TWO64 - 1, false) else Xfp(sign, 0x7fff, TWO63, false),
             {Overflow, Inexact})
    else if exp <= 0 then
      var (a, b) := ShiftRightExtra64Jamming(fracA, fracB, 1 - exp);
      Packed(Xfp(sign, 0, a, false), When(b != 0, Underflow) + When(b != 0, Inexact))
    else
      Packed(Xfp(sign, if fracA == 0 then 0 else exp, fracA, fracB != 0), When(fracB != 0, Inexact))
  }

  /**
   In the normal range the pair is cut off after its high word: whatever exact value it
   stands for, the result is that value truncated, and Inexact is raised iff it was cut.
   */
  lemma NormalRangeTruncates(sign: bool, exp: int, fracA: U64, fracB: U64, rm: RoundMode, num: nat, den: nat)
    requires 1 <= exp <= 0x7ffe && fracA >= TWO63
    requires fracA * Pow2(exp - 1) * den <= num < (fracA + 1) * Pow2(exp - 1) * den
    requires fracB != 0 <==> num != fracA * Pow2(exp - 1) * den
    ensures var p := RoundPackXfp(sign, exp, fracA, fracB, rm);
            && Canonical(p.value) && p.value.exp == exp && p.value.sign == sign
            && Truncates(p.value, num, den)
            && p.raised == When(p.value.sticky, Inexact)
  {
    assert (fracA + 1) * Pow2(exp - 1) == fracA * Pow2(exp - 1) + Pow2(exp - 1);
  }

  /**
   Below the normal range a pair whose value is a whole number of smallest subnormals is
   packed exactly, raising nothing.
   */
  lemma SubnormalExact(sign: bool, exp: int, frac: U64, rm: RoundMode, m: nat)
    requires -0x7ffe <= exp <= 0
    requires frac == m * Pow2(1 - exp)
    ensures var p := RoundPackXfp(sign, exp, frac, 0, rm);
            && Canonical(p.value) && p.value == Xfp(sign, 0, m, false) && Mag(p.value) == m
            && p.raised == {}
  {
    ExtraOfMultiple(frac, m, 1 - exp);
  }

  /** Shifting a multiple of the shifted-off unit loses nothing. */
  lemma ExtraOfMultiple(frac: U64, m: nat, count: nat)
    requires count > 0 && frac == m * Pow2(count)
    ensures ShiftRightExtra64Jamming(frac, 0, count) == (m, 0) && 2 * m <= frac
  {
    hide Pow2, ShiftRightExtra64Jamming;
    ExtraSpec(frac, 0, count);
    assert Pow2(count) >= 2 by { Pow2Strict(0, count); Pow2Small(); }
    MulLe(2, Pow2(count), m);
    DivUnique(frac, Pow2(count), m);
  }

  /** Shift a pair left until its top bit is set; `k` is the distance. */
  method NormalizePair(f0: U64, f1: U64) returns (g0: U64, g1: U64, k: nat)
    ensures Val(f0, f1) > 0 ==> g0 >= TWO63 && k <= 127 && Val(g0, g1) == Val(f0, f1) * Pow2(k)
    ensures Val(f0, f1) == 0 ==> g0 == 0 && g1 == 0 && k == 128
  {
    var h0, h1, j := f0, f1, 0;
    if h0 == 0 {
      h0, h1, j := h1, 0, 64;
    }
    var n := LeadingZeros64(h0);
    if h0 > 0 {
      NormalizedFits(h0, h1, n);
      Compose(Val(f0, f1), Val(h0, h1), j, n);
    }
    g0, g1 := ShortShiftLeft128(h0, h1, n);
    k := j + n;
    if h0 > 0 { TopWord(g0, g1); }
  }

  lemma NormalizedFits(a: U64, b: U64, n: nat)
    requires a > 0 && IsLeadingZeros(a, n)
    ensures TWO63 * TWO64 <= Val(a, b) * Pow2(n) < TWO128
  {
    var p := Pow2(n);
    assert (a + 1) * p <= TWO64 by {
      TopAligned(a, n);
    }
    MulLe(Val(a, b), (a + 1) * TWO64 - 1, p);
    assert ((a + 1) * TWO64 - 1) * p == (a + 1) * p * TWO64 - p;
    assert Val(a, b) * p == a * p * TWO64 + b * p;
    MulLe(0, b, p);
  }

  /** A value aligned to 2^n below 2^64 leaves room for a whole further unit. */
  lemma TopAligned(a: U64, n: nat)
    requires n <= 64 && a * Pow2(n) < TWO64
    ensures (a + 1) * Pow2(n) <= TWO64
  {
    Pow2Words();
    Pow2Add(64 - n, n);
    var c := Pow2(64 - n);
    if a >= c { MulLe(c, a, Pow2(n)); }
    MulLe(a + 1, c, Pow2(n));
  }

  lemma TopWord(g0: U64, g1: U64)
    requires Val(g0, g1) >= TWO63 * TWO64
    ensures g0 >= TWO63
  {
  }

  lemma Compose(v: nat, w: nat, j: nat, n: nat)
    requires (j == 0 && w == v) || (j == 64 && w == v * TWO64)
    ensures w * Pow2(n) == v * Pow2(j + n)
  {
    if j == 64 {
      Pow2Words();
      Pow2Add(64, n);
      MulAssoc(v, TWO64, Pow2(n));
    }
  }

  method NormalizeRoundPackXfp(sign: bool, exp: int, f0: U64, f1: U64, rm: RoundMode)
    returns (p: Packed<Xfp>, ghost k: nat)
    requires exp >= -0x7000
    ensures k <= 128 && Val(f0, f1) * Pow2(k) < TWO128
    ensures Val(f0, f1) > 0 ==> k <= 127 && Val(f0, f1) * Pow2(k) >= TWO63 * TWO64
    ensures Val(f0, f1) == 0 ==> k == 128
    ensures var v := Val(f0, f1) * Pow2(k);
            p == RoundPackXfp(sign, exp - k, v / TWO64, v % TWO64, rm)
  {
    var g0, g1, n := NormalizePair(f0, f1);
    k := n;
    DivUnique(Val(g0, g1), TWO64, g0);
    p := RoundPackXfp(sign, exp - n, g0, g1, rm);
  }

  // ---------------------------------------------------------------- double precision

  /** Sign bit, exponent field and significand added up, as the packing macro does. */
  function PackDfp(sign: bool, exp: nat, frac: nat): (bits: nat) {
    Bit(sign) * TWO63 + exp * TWO52 + frac
  }

  const TWO52: nat := 0x10_0000_0000_0000

  /** Rounding addend of the directed modes. */
  function DirectedIncrement(sign: bool, rm: RoundMode): nat {
    if rm == Nearest || rm == Zero || (sign && rm == PlusInf) || (!sign && rm == MinusInf) then 0 else 0x7ff
  }

  /** The last step of rounding to double: drop eleven bits of `frac`. */
  function RoundFrac(sign: bool, frac: U64, sticky: bool, rm: RoundMode): nat {
    var roundBits := frac % 0x800;
    if rm == Nearest then
      var f := frac / 0x800;
      if roundBits >= 0x400 && (roundBits % 0x400 != 0 || sticky || f % 2 == 1) then f + 1 else f
    else
      var f := ((frac + DirectedIncrement(sign, rm)) % TWO64) / 0x800;
      if roundBits == 0x200 then f - f % 2 else f
  }

  function RoundPackDfp(sign: bool, exp: int, frac: U64, sticky: bool, rm: RoundMode): (p: Packed<nat>) {
    if exp > 0x7fd then
      Packed(PackDfp(sign, 0x7ff, 0) - Bit(DirectedIncrement(sign, rm) == 0), {Overflow, Inexact})
    else if exp < 0 then
      var f := ShiftRight64Jamming(frac, -exp);
      var lost := f % 0x800 != 0;
      Packed(PackDfp(sign, 0, RoundFrac(sign, f, sticky, rm)), When(lost, Underflow) + When(lost, Inexact))
    else
      Packed(PackDfp(sign, exp, RoundFrac(sign, frac, sticky, rm)), When(frac % 0x800 != 0, Inexact))
  }

  // ---------------------------------------------------------------- integers

  const INT_MAX: int := 0x7fff_ffff
  const INT_MIN: int := -0x8000_0000

  /** Rounding addend over seven fraction bits. */
  function IntIncrement(sign: bool, rm: RoundMode): nat {
    match rm
    case Nearest => 0x40
    case Zero => 0
    case PlusInf => if sign then 0 else 0x7f
    case MinusInf => if sign then 0x7f else 0
  }

  /** A word's low half read as a signed 32-bit number. */
  function AsInt32(x: int): (r: int)
    ensures INT_MIN <= r <= INT_MAX
    ensures (r - x) % TWO32 == 0
  {
    var w := x % TWO32;
    if w < TWO31 then w else w - TWO32
  }

  /** `frac` carries seven fraction bits. */
  function RoundPackInt(sign: bool, frac: U64, rm: RoundMode): (p: Packed<int>) {
    var roundBits := frac % 0x80;
    var f0 := ((frac + IntIncrement(sign, rm)) % TWO64) / 0x80;
    var f := if roundBits == 0x40 && rm == Nearest then f0 - f0 % 2 else f0;
    var r0 := AsInt32(f);
    var r := if sign then AsInt32(-r0) else r0;
    if f / TWO32 != 0 || (r != 0 && ((r < 0) != sign)) then
      Packed(if sign then INT_MIN else INT_MAX, {IntOverflow, Inexact})
    else
      Packed(r, When(roundBits != 0, Inexact))
  }
}
