/**
 Addition and subtraction of finite extended values.  The exact result is always a whole
 number of Mag's unit; the routines deliver it truncated to 64 significant bits with a
 sticky flag, even when the alignment shift collapses the smaller operand to a single bit.
 */
module AddSub {
  import opened Powers
  import opened Words128
  import opened Shifts
  import opened Xfp
  import opened RoundPack

  /** The first magnitude beyond the finite range. */
  ghost function Limit(): nat {
    TWO64 * Pow2(EXP_MAX - 2)
  }

  /** What add, subtract and multiply promise about an exact magnitude num/den. */
  ghost predicate Delivers(p: Packed<Xfp>, sign: bool, num: nat, den: nat) {
    && Canonical(p.value) && p.value.sign == sign
    && Truncates(p.value, num, den)
    && p.raised == When(p.value.sticky, Inexact)
  }

  // ------------------------------------------------------------ addition of magnitudes

  /** Pack a sum of significands that carried out of the word, leaving `r0` and a tail. */
  function CarryPack(sign: bool, exp: nat, r0: U64, tail: U64, rm: RoundMode): Packed<Xfp> {
    var (h, l) := ShiftRightExtra64Jamming(r0, tail, 1);
    RoundPackXfp(sign, exp + 1, if h < TWO63 then h + TWO63 else h, l, rm)
  }

  lemma CarryDelivers(sign: bool, exp: nat, r0: U64, tail: U64, rm: RoundMode, num: nat)
    requires 1 <= exp <= 0x7ffe
    requires (TWO64 + r0) * Pow2(exp - 1) <= num < (TWO64 + r0 + 1) * Pow2(exp - 1)
    requires tail != 0 <==> num != (TWO64 + r0) * Pow2(exp - 1)
    ensures num < Limit() ==> Delivers(CarryPack(sign, exp, r0, tail, rm), sign, num, 1)
    ensures num >= Limit() ==> CarryPack(sign, exp, r0, tail, rm).raised == {Overflow, Inexact}
  {
    hide Pow2, ShiftRightExtra64Jamming, RoundPackXfp, Limit;
    var s := TWO64 + r0;
    var (h, l) := ShiftRightExtra64Jamming(r0, tail, 1);
    ExtraSpec(r0, tail, 1);
    assert Pow2(1) == 2 by { Pow2Small(); }
    assert h + TWO63 == s / 2 && (l != 0 <==> tail != 0 || s % 2 != 0);
    var u := Pow2(exp - 1);
    assert Pow2(exp) == 2 * u by { Pow2Add(1, exp - 1); }
    HalveUnits(s, u, num, tail != 0);
    if exp < 0x7ffe {
      BelowLimit(s / 2 + 1, exp + 1, num);
      NormalRangeTruncates(sign, exp + 1, s / 2, l, rm, num, 1);
    } else {
      AtLimit(s, num);
      OverflowRaised(sign, exp + 1, s / 2, l, rm);
    }
  }

  lemma OverflowRaised(sign: bool, exp: int, a: U64, b: U64, rm: RoundMode)
    requires exp > 0x7ffe
    ensures RoundPackXfp(sign, exp, a, b, rm).raised == {Overflow, Inexact}
  {
  }

  lemma HalveUnits(s: nat, u: nat, num: nat, tail: bool)
    requires u > 0 && s * u <= num < (s + 1) * u && (tail <==> num != s * u)
    ensures (s / 2) * (2 * u) <= num < (s / 2 + 1) * (2 * u)
    ensures tail || s % 2 != 0 <==> num != (s / 2) * (2 * u)
  {
    var h, b := s / 2, s % 2;
    DivModBasics(s, 2);
    TwoHalves(h, b, u);
  }

  lemma TwoHalves(h: int, b: int, u: int)
    ensures (h * 2 + b) * u == 2 * (h * u) + b * u && (h * 2 + b + 1) * u == 2 * (h * u) + b * u + u
    ensures h * (2 * u) == 2 * (h * u) && (h + 1) * (2 * u) == 2 * (h * u) + 2 * u
  {
  }

  /**
   The larger significand `x` at exponent `exp` plus `y`, aligned by shifting right `d`.  The
   top bit of the wrapped sum tells whether it carried.
   */
  function AddAligned(sign: bool, exp: nat, x: U64, y: U64, d: nat, rm: RoundMode): Packed<Xfp>
    requires 1 <= exp
  {
    var (y1, tail) := ShiftRightExtra64Jamming(y, 0, d);
    var r0 := (x + y1) % TWO64;
    if Negative(r0) then RoundPackXfp(sign, exp, r0, tail, rm)
    else CarryPack(sign, exp, r0, tail, rm)
  }

  /** The units of an aligned sum: x * 2^d + y units of the smaller operand. */
  lemma AlignedUnits(x: nat, y: nat, p: nat, u: nat)
    requires p > 0 && u > 0
    ensures var s := x + y / p;
            && s * (p * u) <= x * (p * u) + y * u < (s + 1) * (p * u)
            && (y % p != 0 <==> x * (p * u) + y * u != s * (p * u))
  {
    var s, h, l := x + y / p, y / p, y % p;
    DivModBasics(y, p);
    var w := p * u;
    assert y * u == h * w + l * u by { assert (h * p + l) * u == h * p * u + l * u; MulAssoc(h, p, u); }
    assert s * w == x * w + h * w && (s + 1) * w == s * w + w;
    assert l * u < w by { MulLt(l, p, u); }
    if l > 0 { MulLt(0, l, u); }
  }

  lemma AddAlignedDelivers(sign: bool, exp: nat, x: U64, y: U64, d: nat, rm: RoundMode, num: nat)
    requires 1 <= exp <= 0x7ffe && d < exp && x >= TWO63
    requires y / Pow2(d) < TWO63
    requires num == x * Pow2(exp - 1) + y * Pow2(exp - 1 - d)
    ensures num < Limit() ==> Delivers(AddAligned(sign, exp, x, y, d, rm), sign, num, 1)
    ensures num >= Limit() ==> AddAligned(sign, exp, x, y, d, rm).raised == {Overflow, Inexact}
  {
    hide Pow2, ShiftRightExtra64Jamming, RoundPackXfp, CarryPack, Limit;
    var p, u := Pow2(d), Pow2(exp - 1 - d);
    assert Pow2(exp - 1) == p * u by { Pow2Add(d, exp - 1 - d); }
    var (y1, tail) := ShiftRightExtra64Jamming(y, 0, d);
    ExtraSpec(y, 0, d);
    AlignedUnits(x, y, p, u);
    var s := x + y1;
    if s < TWO64 {
      DivUnique(s, TWO64, 0);
      BelowLimit(s + 1, exp, num);
      NormalRangeTruncates(sign, exp, s, tail, rm, num, 1);
    } else {
      DivUnique(s, TWO64, 1);
      CarryDelivers(sign, exp, s - TWO64, tail, rm, num);
    }
  }

  lemma BelowLimit(s: nat, exp: nat, num: nat)
    requires s <= TWO64 && 1 <= exp <= 0x7ffe && num < s * Pow2(exp - 1)
    ensures num < Limit()
  {
    hide Pow2;
    Pow2Monotone(exp - 1, EXP_MAX - 2);
    MulLe(s, TWO64, Pow2(exp - 1));
    MulLe(Pow2(exp - 1), Pow2(EXP_MAX - 2), TWO64);
  }

  lemma AtLimit(s: nat, num: nat)
    requires s >= TWO64 && num >= s * Pow2(0x7ffe - 1)
    ensures num >= Limit()
  {
    hide Pow2;
    MulLe(TWO64, s, Pow2(EXP_MAX - 2));
  }

  /** Bring a subnormal significand to the top of the word; zero stays zero. */
  method NormalizeXfpSubnormal(frac: U64) returns (exp: int, norm: U64, ghost n: nat)
    ensures IsLeadingZeros(frac, n) && exp == 1 - n
    ensures norm == if frac == 0 then 0 else frac * Pow2(n)
  {
    hide Pow2;
    var lz := LeadingZeros64(frac);
    n := lz;
    norm := if lz < 64 then Shl64(frac, lz) else 0;
    if frac != 0 { DivUnique(frac * Pow2(lz), TWO64, 0); }
    exp := 1 - (lz as int);
  }

  /** A sum of two subnormals is exact, whether or not it reaches the normal range. */
  lemma SubnormalSum(sign: bool, m: U64, n: nat, norm: U64, rm: RoundMode)
    requires IsLeadingZeros(m, n) && norm == if m == 0 then 0 else m * Pow2(n)
    ensures Delivers(RoundPackXfp(sign, 1 - n, norm, 0, rm), sign, m, 1)
  {
    hide Pow2, RoundPackXfp;
    assert Pow2(0) == 1 by { Pow2Small(); }
    if n == 0 {
      NormalRangeTruncates(sign, 1, norm, 0, rm, m, 1);
    } else {
      SubnormalExact(sign, 1 - n, norm, rm, m);
    }
  }

  /**
   The sum of two magnitudes: below the overflow limit it is the exact sum truncated, with
   Inexact iff something was cut off; from the limit on it is reported as overflow.
   */
  method XfpAddFracs(a: Xfp, b: Xfp, sign: bool, rm: RoundMode) returns (p: Packed<Xfp>)
    requires Canonical(a) && Canonical(b)
    ensures Mag(a) + Mag(b) < Limit() ==> Delivers(p, sign, Mag(a) + Mag(b), 1)
    ensures Mag(a) + Mag(b) >= Limit() ==> p.raised == {Overflow, Inexact}
  {
    hide Pow2, RoundPackXfp, AddAligned, CarryPack, Limit, Delivers;
    ghost var num := Mag(a) + Mag(b);
    if a.exp > b.exp {
      var d := if b.exp == 0 then a.exp - b.exp - 1 else a.exp - b.exp;
      AlignedOperand(b, d);
      AddAlignedDelivers(sign, a.exp, a.frac, b.frac, d, rm, num);
      p := AddAligned(sign, a.exp, a.frac, b.frac, d, rm);
    } else if a.exp < b.exp {
      var d := if a.exp == 0 then b.exp - a.exp - 1 else b.exp - a.exp;
      AlignedOperand(a, d);
      AddAlignedDelivers(sign, b.exp, b.frac, a.frac, d, rm, num);
      p := AddAligned(sign, b.exp, b.frac, a.frac, d, rm);
    } else if a.exp == 0 {
      var exp, norm, n := NormalizeXfpSubnormal(a.frac + b.frac);
      assert num == a.frac + b.frac by { Pow2Small(); }
      SubnormalSum(sign, a.frac + b.frac, n, norm, rm);
      SmallSum(num);
      p := RoundPackXfp(sign, exp, norm, 0, rm);
    } else {
      var r0 := (a.frac + b.frac) % TWO64;
      DivUnique(a.frac + b.frac, TWO64, 1);
      EqualExponents(a.frac, b.frac, Ulp(a), num);
      CarryDelivers(sign, a.exp, r0, 0, rm, num);
      p := CarryPack(sign, a.exp, r0, 0, rm);
    }
  }

  lemma AlignedOperand(y: Xfp, d: nat)
    requires Canonical(y) && (d == 0 ==> y.exp == 0)
    ensures y.frac / Pow2(d) < TWO63
  {
    hide Pow2;
    if d == 0 {
      assert Pow2(0) == 1 by { Pow2Small(); }
    } else {
      assert Pow2(d) > 1 by { Pow2Strict(0, d); Pow2Small(); }
      HalfBound(y.frac, Pow2(d));
    }
  }

  lemma SmallSum(num: nat)
    requires num < TWO64
    ensures num < Limit()
  {
    hide Pow2;
    assert Pow2(0) == 1 by { Pow2Small(); }
    BelowLimit(TWO64, 1, num);
  }

  lemma EqualExponents(x: nat, y: nat, u: nat, num: nat)
    requires u > 0 && num == x * u + y * u
    ensures num == (x + y) * u < (x + y + 1) * u
  {
    MulLt(x + y, x + y + 1, u);
  }

  // ------------------------------------------------------------ exact pairs

  /**
   A 128-bit pair that stands exactly for `num` is delivered exactly: truncated after its
   64th significant bit in the normal range, shifted back without loss below it.
   The pair's value is v * 2^(t - s) / 2^64 and its exponent 1 + t - s.
   */
  lemma ExactPair(sign: bool, v: nat, k: nat, s: nat, t: nat, rm: RoundMode, num: nat)
    requires num * TWO64 * Pow2(s) == v * Pow2(t)
    requires TWO63 * TWO64 <= v * Pow2(k) < TWO128
    requires k <= 128 && -0x7000 <= 1 + t - s <= 0x7ffe + k
    ensures var w := v * Pow2(k);
            Delivers(RoundPackXfp(sign, 1 + t - s - k, w / TWO64, w % TWO64, rm), sign, num, 1)
  {
    hide Pow2, RoundPackXfp, Delivers;
    var w, e := v * Pow2(k), 1 + t - s - k;
    var f, l := w / TWO64, w % TWO64;
    WordsOf(w, f, l);
    if e >= 1 {
      ScaleUp(v, k, s, t, num, Pow2(e - 1));
      ExactNormal(sign, e, f, l, rm, num);
    } else {
      ScaleDown(v, k, s, t, num, Pow2(1 - e));
      ExactSubnormal(sign, e, f, l, rm, num);
    }
  }

  lemma WordsOf(w: nat, f: nat, l: nat)
    requires TWO63 * TWO64 <= w < TWO128 && f == w / TWO64 && l == w % TWO64
    ensures w == f * TWO64 + l && TWO63 <= f < TWO64 && l < TWO64
  {
    DivModBasics(w, TWO64);
  }

  lemma ExactNormal(sign: bool, e: int, f: U64, l: U64, rm: RoundMode, num: nat)
    requires 1 <= e <= 0x7ffe && f >= TWO63
    requires num * TWO64 == (f * TWO64 + l) * Pow2(e - 1)
    ensures Delivers(RoundPackXfp(sign, e, f, l, rm), sign, num, 1)
  {
    hide Pow2, RoundPackXfp;
    TopPart(num, f, l, Pow2(e - 1));
    NormalRangeTruncates(sign, e, f, l, rm, num, 1);
  }

  lemma ExactSubnormal(sign: bool, e: int, f: U64, l: U64, rm: RoundMode, num: nat)
    requires -0x7ffe <= e <= 0
    requires f * TWO64 + l == num * Pow2(1 - e) * TWO64
    ensures Delivers(RoundPackXfp(sign, e, f, l, rm), sign, num, 1)
  {
    hide Pow2, RoundPackXfp;
    LowWordZero(f, l, num * Pow2(1 - e));
    SubnormalExact(sign, e, f, rm, num);
  }

  lemma LowWordZero(f: int, l: nat, x: int)
    requires l < TWO64 && f * TWO64 + l == x * TWO64
    ensures l == 0 && f == x
  {
  }

  lemma ScaleUp(v: nat, k: nat, s: nat, t: nat, num: nat, g: nat)
    requires t >= s + k && g == Pow2(t - s - k)
    requires num * TWO64 * Pow2(s) == v * Pow2(t)
    ensures num * TWO64 == v * Pow2(k) * g
  {
    hide Pow2;
    Pow2Add(k, t - s - k);
    Pow2Add(s, t - s);
    var ps, x := Pow2(s), v * Pow2(k) * g;
    assert v * Pow2(t) == x * ps by {
      MulAssoc(v, Pow2(k), g);
      MulAssoc(v, Pow2(k) * g, ps);
    }
    CancelFactor(num * TWO64, x, ps);
  }

  lemma ScaleDown(v: nat, k: nat, s: nat, t: nat, num: nat, g: nat)
    requires t <= s + k && g == Pow2(s + k - t)
    requires num * TWO64 * Pow2(s) == v * Pow2(t)
    ensures v * Pow2(k) == num * g * TWO64
  {
    hide Pow2;
    Pow2Add(s, k);
    Pow2Add(s + k - t, t);
    var pt, x := Pow2(t), num * g * TWO64;
    assert v * Pow2(k) * pt == x * pt by {
      assert v * Pow2(k) * pt == (v * pt) * Pow2(k);
      assert (num * TWO64 * Pow2(s)) * Pow2(k) == num * TWO64 * (Pow2(s) * Pow2(k)) by {
        MulAssoc(num * TWO64, Pow2(s), Pow2(k));
      }
      assert num * TWO64 * (g * pt) == x * pt by { MulAssoc(num * TWO64, g, pt); }
    }
    CancelFactor(v * Pow2(k), x, pt);
  }

  lemma CancelFactor(x: int, y: int, z: int)
    requires z > 0 && x * z == y * z
    ensures x == y
  {
    if x < y { MulLt(x, y, z); } else if y < x { MulLt(y, x, z); }
  }

  /** The high word of an exact pair counts whole units; the low word is the tail. */
  lemma TopPart(num: nat, f: nat, l: nat, g: nat)
    requires l < TWO64 && g > 0 && num * TWO64 == (f * TWO64 + l) * g
    ensures f * g <= num < (f + 1) * g && (l != 0 <==> num != f * g)
  {
    var r := num - f * g;
    assert r * TWO64 == l * g by { assert (f * TWO64 + l) * g == f * g * TWO64 + l * g; }
    MulLt(l, TWO64, g);
    assert (f + 1) * g == f * g + g;
    if l > 0 { MulLt(0, l, g); }
  }

  // ------------------------------------------------------------ subtraction of magnitudes

  /**
   The larger operand's significand `x` minus `y`, aligned by shifting right `d` into the low
   word.  The two shift routines of the source that add and subtract use have the same body.
   */
  method SubAligned(sign: bool, exp: nat, x: U64, y: U64, d: nat, rm: RoundMode, ghost num: nat)
    returns (p: Packed<Xfp>)
    requires 1 <= exp <= 0x7ffe && d < exp && (d > 64 ==> x >= TWO63)
    requires num + y * Pow2(exp - 1 - d) == x * Pow2(exp - 1) && num > 0
    ensures Delivers(p, sign, num, 1)
  {
    hide Pow2, ShiftRightExtra64Jamming, RoundPackXfp, Delivers;
    var (y0, y1) := ShiftRightExtra64Jamming(y, 0, d);
    DifferencePositive(x, y, d, exp, num, y0, y1);
    var r0, r1 := Sub128(x, 0, y0, y1);
    ghost var v := x * TWO64 - Val(y0, y1);
    DivUnique(v, TWO128, 0);
    ghost var k;
    p, k := NormalizeRoundPackXfp(sign, exp, r0, r1, rm);
    if d <= 64 {
      AlignedDifference(x, y, d, exp, num, y0, y1, v);
      assert Pow2(0) == 1 by { Pow2Small(); }
      ExactPair(sign, v, k, 0, exp - 1, rm, num);
    } else {
      CoarseShift(y, d);
      CoarseDifference(sign, x, y, d, exp, num, v, k, rm);
    }
  }

  lemma CoarseShift(y: U64, d: nat)
    requires d > 64
    ensures ShiftRightExtra64Jamming(y, 0, d) == (0, Bit(y != 0))
  {
  }

  lemma DifferencePositive(x: U64, y: U64, d: nat, exp: nat, num: nat, y0: U64, y1: U64)
    requires 1 <= exp && d < exp && (d > 64 ==> x >= TWO63)
    requires num + y * Pow2(exp - 1 - d) == x * Pow2(exp - 1) && num > 0
    requires (y0, y1) == ShiftRightExtra64Jamming(y, 0, d)
    ensures 0 < x * TWO64 - Val(y0, y1) < TWO128
  {
    hide Pow2;
    var p, u := Pow2(d), Pow2(exp - 1 - d);
    assert Pow2(exp - 1) == p * u by { Pow2Add(d, exp - 1 - d); }
    if d <= 64 {
      ExtraExact(y, d);
      PositiveFactor(x, y, p, u);
      if x * TWO64 <= Val(y0, y1) { MulLe(x * TWO64, Val(y0, y1), p); }
    }
  }

  lemma PositiveFactor(x: nat, y: nat, p: nat, u: nat)
    requires y * u < x * (p * u) && u > 0
    ensures y * TWO64 < x * TWO64 * p
  {
    assert x * (p * u) == (x * p) * u by { MulAssoc(x, p, u); }
    MulCancelLt(y, x * p, u);
  }

  lemma AlignedDifference(x: U64, y: U64, d: nat, exp: nat, num: nat, y0: U64, y1: U64, v: nat)
    requires 1 <= exp && d < exp && d <= 64
    requires num + y * Pow2(exp - 1 - d) == x * Pow2(exp - 1)
    requires (y0, y1) == ShiftRightExtra64Jamming(y, 0, d) && v == x * TWO64 - Val(y0, y1)
    ensures num * TWO64 == v * Pow2(exp - 1)
  {
    hide Pow2;
    var p, u := Pow2(d), Pow2(exp - 1 - d);
    assert Pow2(exp - 1) == p * u by { Pow2Add(d, exp - 1 - d); }
    ExtraExact(y, d);
    Distribute(x, y, p, u, Val(y0, y1));
  }

  lemma Distribute(x: int, y: int, p: int, u: int, w: int)
    requires w * p == y * TWO64
    ensures (x * (p * u) - y * u) * TWO64 == (x * TWO64 - w) * (p * u)
  {
    calc {
      (x * TWO64 - w) * (p * u);
      x * TWO64 * (p * u) - w * (p * u);
      { MulAssoc(w, p, u); }
      x * TWO64 * (p * u) - y * TWO64 * u;
    }
  }

  /**
   Alignment by more than a word replaces the smaller operand by one unit of the low word.
   That changes neither the integer part nor the fact that something was cut off.
   */
  lemma CoarseDifference(sign: bool, x: U64, y: U64, d: nat, exp: nat, num: nat, v: nat, k: nat, rm: RoundMode)
    requires 64 < d < exp <= 0x7ffe && x >= TWO63
    requires num + y * Pow2(exp - 1 - d) == x * Pow2(exp - 1)
    requires v == x * TWO64 - Bit(y != 0)
    requires TWO63 * TWO64 <= v * Pow2(k) < TWO128
    ensures var w := v * Pow2(k);
            && k <= 1
            && Delivers(RoundPackXfp(sign, exp - k, w / TWO64, w % TWO64, rm), sign, num, 1)
  {
    hide Pow2, RoundPackXfp, Delivers;
    SmallShift(v, k);
    if y == 0 {
      assert Pow2(0) == 1 by { Pow2Small(); }
      ExactPair(sign, v, k, 0, exp - 1, rm, num);
    } else if k == 0 {
      assert v * Pow2(k) == v by { Pow2Small(); }
      DivUnique(v, TWO64, x - 1);
      CoarseFull(sign, x, y, d, exp, num, rm);
    } else {
      assert v * Pow2(k) == 2 * v by { Pow2Small(); }
      HalvedBorrow(x, v);
      DivUnique(2 * v, TWO64, 2 * x - 1);
      CoarseHalved(sign, x, y, d, exp, num, rm);
    }
  }

  lemma HalvedBorrow(x: U64, v: nat)
    requires v == x * TWO64 - 1 && 2 * v < TWO128 && x >= TWO63
    ensures x == TWO63
  {
  }

  lemma CoarseFull(sign: bool, x: U64, y: U64, d: nat, exp: nat, num: nat, rm: RoundMode)
    requires 64 < d < exp <= 0x7ffe && x > TWO63 && y > 0
    requires num + y * Pow2(exp - 1 - d) == x * Pow2(exp - 1)
    ensures Delivers(RoundPackXfp(sign, exp, x - 1, TWO64 - 1, rm), sign, num, 1)
  {
    hide Pow2, RoundPackXfp;
    var g := Pow2(exp - 1);
    TinySubtrahend(y, d, exp);
    assert (x - 1) * g == x * g - g;
    NormalRangeTruncates(sign, exp, x - 1, TWO64 - 1, rm, num, 1);
  }

  lemma CoarseHalved(sign: bool, x: U64, y: U64, d: nat, exp: nat, num: nat, rm: RoundMode)
    requires 64 < d < exp <= 0x7ffe && x == TWO63 && y > 0
    requires num + y * Pow2(exp - 1 - d) == x * Pow2(exp - 1)
    ensures Delivers(RoundPackXfp(sign, exp - 1, 2 * x - 1, TWO64 - 2, rm), sign, num, 1)
  {
    hide Pow2, RoundPackXfp;
    var g := Pow2(exp - 2);
    assert Pow2(exp - 1) == 2 * g by { Pow2Add(1, exp - 2); Pow2Small(); }
    TinySubtrahend(y, d, exp);
    assert (2 * x - 1) * g == x * (2 * g) - g;
    NormalRangeTruncates(sign, exp - 1, 2 * x - 1, TWO64 - 2, rm, num, 1);
  }

  lemma SmallShift(v: nat, k: nat)
    requires v >= TWO63 * TWO64 - 1 && v * Pow2(k) < TWO128
    ensures k <= 1
  {
    hide Pow2;
    if k >= 2 {
      assert Pow2(k) >= 4 by { Pow2Monotone(2, k); assert Pow2(2) == 4 by { Pow2Two(); } }
      MulLe(4, Pow2(k), v);
    }
  }

  lemma Pow2Two()
    ensures Pow2(2) == 4
  {
  }

  /** The collapsed operand is positive and below half a unit of the larger one. */
  lemma TinySubtrahend(y: U64, d: nat, exp: nat)
    requires y > 0 && 64 < d < exp
    ensures 0 < y * Pow2(exp - 1 - d) && 2 * (y * Pow2(exp - 1 - d)) < Pow2(exp - 1)
  {
    hide Pow2;
    var p, u := Pow2(d), Pow2(exp - 1 - d);
    assert Pow2(exp - 1) == p * u by { Pow2Add(d, exp - 1 - d); }
    assert p >= 2 * TWO64 by { Pow2Strict(64, d); Pow2Words(); }
    MulLt(0, y, u);
    MulLt(2 * y, p, u);
    assert 2 * y * u == 2 * (y * u);
  }

  /**
   The difference of two magnitudes: its exact value truncated, with the sign flipped when
   the subtrahend is larger; equal magnitudes give a zero signed by the rounding mode.
   */
  method XfpSubFracs(a: Xfp, b: Xfp, sign: bool, rm: RoundMode) returns (p: Packed<Xfp>)
    requires Canonical(a) && Canonical(b)
    ensures Mag(a) > Mag(b) ==> Delivers(p, sign, Mag(a) - Mag(b), 1)
    ensures Mag(a) < Mag(b) ==> Delivers(p, !sign, Mag(b) - Mag(a), 1)
    ensures Mag(a) == Mag(b) ==> p == Packed(Xfp(rm == MinusInf, 0, 0, false), {})
  {
    hide Pow2, Delivers;
    if a.exp > b.exp {
      var d := if b.exp == 0 then a.exp - b.exp - 1 else a.exp - b.exp;
      LargerExponent(a, b);
      p := SubAligned(sign, a.exp, a.frac, b.frac, d, rm, Mag(a) - Mag(b));
    } else if a.exp < b.exp {
      var d := if a.exp == 0 then b.exp - a.exp - 1 else b.exp - a.exp;
      LargerExponent(b, a);
      p := SubAligned(!sign, b.exp, b.frac, a.frac, d, rm, Mag(b) - Mag(a));
    } else {
      var exp := ScaleExp(a);
      SameUnit(a.frac, b.frac, Ulp(a));
      if b.frac < a.frac {
        p := SubAligned(sign, exp, a.frac, b.frac, 0, rm, Mag(a) - Mag(b));
      } else if a.frac < b.frac {
        p := SubAligned(!sign, exp, b.frac, a.frac, 0, rm, Mag(b) - Mag(a));
      } else {
        p := Packed(Xfp(rm == MinusInf, 0, 0, false), {});
      }
    }
  }

  lemma LargerExponent(x: Xfp, y: Xfp)
    requires Canonical(x) && Canonical(y) && x.exp > y.exp
    ensures Mag(x) > Mag(y)
  {
    hide Pow2;
    if y.exp == 0 {
      MulLe(TWO63, x.frac, Ulp(x));
      assert Ulp(y) == 1 by { Pow2Small(); }
    } else {
      assert 2 * Ulp(y) <= Ulp(x) by { Pow2Strict(y.exp - 1, x.exp - 1); }
      MulLe(TWO63, x.frac, Ulp(x));
      MulLt(y.frac, TWO64, Ulp(y));
    }
  }

  lemma SameUnit(x: nat, y: nat, u: nat)
    requires u > 0
    ensures x < y <==> x * u < y * u
    ensures x == y <==> x * u == y * u
  {
    if x < y { MulLt(x, y, u); } else if y < x { MulLt(y, x, u); }
  }
}
