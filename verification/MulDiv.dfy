/**
 Multiplication and division of finite extended values.
 */
module MulDiv {
  import opened Powers
  import opened Words128
  import opened Shifts
  import opened EstimateDiv
  import opened Xfp
  import opened RoundPack
  import opened AddSub

  // ------------------------------------------------------------ packing a quotient or product

  /** A result below the normal range: cut off to a whole number of smallest subnormals. */
  ghost predicate FlushesDown(p: Packed<Xfp>, sign: bool, num: nat, den: nat) {
    && p.value == Xfp(sign, 0, p.value.frac, false) && Canonical(p.value)
    && p.value.frac * den <= num < (p.value.frac + 1) * den
    && p.raised == if p.value.frac * den == num then {} else {Underflow, Inexact}
  }

  /** The three ranges of an exact magnitude num/den. */
  ghost predicate Outcome(p: Packed<Xfp>, sign: bool, num: nat, den: nat) {
    && (num < TWO63 * den ==> FlushesDown(p, sign, num, den))
    && (TWO63 * den <= num < Limit() * den ==> Delivers(p, sign, num, den) && p.value.exp >= 1)
    && (num >= Limit() * den ==> p.raised == {Overflow, Inexact})
  }

  /** `f` is the integer part and `tail` the presence of a fraction of num/den, scaled by 2^(1-e). */
  ghost predicate Scaled(f: nat, tail: bool, e: int, num: nat, den: nat) {
    if e >= 1 then
      var g := Pow2(e - 1);
      f * g * den <= num < (f + 1) * g * den && (tail <==> num != f * g * den)
    else
      var c := Pow2(1 - e);
      f * den <= num * c < (f + 1) * den && (tail <==> num * c != f * den)
  }

  lemma PackOutcome(sign: bool, e: int, f: U64, l: U64, rm: RoundMode, num: nat, den: nat)
    requires e >= -0x7ffe && f >= TWO63 && den > 0
    requires Scaled(f, l != 0, e, num, den)
    ensures Outcome(RoundPackXfp(sign, e, f, l, rm), sign, num, den)
  {
    hide Pow2, RoundPackXfp, Limit, Delivers, FlushesDown;
    if e > 0x7ffe {
      LargeOutcome(f, e, num, den);
      OverflowRaised(sign, e, f, l, rm);
    } else if e >= 1 {
      NormalOutcome(f, e, num, den);
      NormalDelivers(sign, e, f, l, rm, num, den);
    } else {
      SmallOutcome(f, e, num, den);
      PackSubnormal(sign, e, f, l, rm, num, den);
    }
  }

  lemma NormalDelivers(sign: bool, e: int, f: U64, l: U64, rm: RoundMode, num: nat, den: nat)
    requires 1 <= e <= 0x7ffe && f >= TWO63
    requires Scaled(f, l != 0, e, num, den)
    ensures Delivers(RoundPackXfp(sign, e, f, l, rm), sign, num, den)
    ensures RoundPackXfp(sign, e, f, l, rm).value.exp == e
  {
    hide Pow2, RoundPackXfp;
    NormalRangeTruncates(sign, e, f, l, rm, num, den);
  }

  lemma LimitPositive()
    ensures Limit() >= TWO64
  {
    hide Pow2;
  }

  lemma LargeOutcome(f: nat, e: int, num: nat, den: nat)
    requires e > 0x7ffe && f >= TWO63 && f * Pow2(e - 1) * den <= num && den > 0
    ensures num >= Limit() * den && num >= TWO63 * den
  {
    hide Pow2;
    var g := Pow2(EXP_MAX - 2);
    assert Pow2(e - 1) >= 2 * g by { Pow2Strict(EXP_MAX - 2, e - 1); }
    MulLe(TWO63, f, Pow2(e - 1));
    MulLe(2 * g, Pow2(e - 1), TWO63);
    MulLe(TWO64 * g, f * Pow2(e - 1), den);
    MulLe(TWO63, Limit(), den);
  }

  lemma NormalOutcome(f: nat, e: int, num: nat, den: nat)
    requires 1 <= e <= 0x7ffe && TWO63 <= f < TWO64 && den > 0
    requires f * Pow2(e - 1) * den <= num < (f + 1) * Pow2(e - 1) * den
    ensures TWO63 * den <= num < Limit() * den
  {
    hide Pow2;
    var g := Pow2(e - 1);
    MulLe(1, g, f);
    MulLe(TWO63, f * g, den);
    assert Pow2(e - 1) <= Pow2(EXP_MAX - 2) by { Pow2Monotone(e - 1, EXP_MAX - 2); }
    MulLe(f + 1, TWO64, g);
    MulLe(g, Pow2(EXP_MAX - 2), TWO64);
    MulLe((f + 1) * g, Limit(), den);
  }

  lemma SmallOutcome(f: nat, e: int, num: nat, den: nat)
    requires e <= 0 && f < TWO64 && den > 0 && num * Pow2(1 - e) < (f + 1) * den
    ensures num < TWO63 * den && num < Limit() * den
  {
    hide Pow2, Limit;
    assert Pow2(1 - e) >= 2 by { Pow2Strict(0, 1 - e); Pow2Small(); }
    MulLe(2, Pow2(1 - e), num);
    MulLe(f + 1, TWO64, den);
    LimitPositive();
    MulLe(TWO63, Limit(), den);
  }

  lemma PackSubnormal(sign: bool, e: int, f: U64, l: U64, rm: RoundMode, num: nat, den: nat)
    requires -0x7ffe <= e <= 0 && den > 0
    requires Scaled(f, l != 0, e, num, den)
    ensures FlushesDown(RoundPackXfp(sign, e, f, l, rm), sign, num, den)
  {
    hide Pow2, ShiftRightExtra64Jamming;
    var c := Pow2(1 - e);
    var q := f / c;
    ExtraSpec(f, l, 1 - e);
    assert c >= 2 by { Pow2Strict(0, 1 - e); Pow2Small(); }
    HalfBound(f, c);
    FloorOfFloor(f, c, num, den, l != 0);
  }

  lemma FloorOfFloor(f: nat, c: nat, num: nat, den: nat, tail: bool)
    requires c > 0 && den > 0 && f * den <= num * c < (f + 1) * den && (tail <==> num * c != f * den)
    ensures var q := f / c;
            && q * den <= num < (q + 1) * den
            && (num == q * den <==> !tail && f % c == 0)
  {
    var q, r := f / c, f % c;
    DivModBasics(f, c);
    ExpandFloor(q, r, c, den);
    MulLe(0, r, den);
    MulLe(r + 1, c, den);
    if r > 0 { MulLe(1, r, den); }
    MulCancelLe(q * den, num, c);
    MulCancelLt(num, (q + 1) * den, c);
    if r == 0 && !tail { CancelFactor(num, q * den, c); }
  }

  lemma ExpandFloor(q: int, r: int, c: int, den: int)
    ensures (q * c + r) * den == (q * den) * c + r * den
    ensures (q * c + r + 1) * den == (q * den) * c + r * den + den
    ensures (r + 1) * den == r * den + den
    ensures ((q + 1) * den) * c == (q * den) * c + c * den
  {
    Swap(q, c, den);
  }

  // ------------------------------------------------------------ operands

  /** Significand and exponent of a non-zero operand, brought to the top of the word. */
  method Unpack(x: Xfp) returns (exp: int, frac: U64, ghost n: nat)
    requires Canonical(x) && !IsZero(x)
    ensures n <= 63 && exp == ScaleExp(x) - n && frac == x.frac * Pow2(n) && frac >= TWO63
    ensures Mag(x) * Pow2(n) == frac * Ulp(x)
  {
    hide Pow2;
    exp, frac, n := x.exp, x.frac, 0;
    assert Pow2(0) == 1 by { Pow2Small(); }
    if x.exp == 0 {
      exp, frac, n := NormalizeXfpSubnormal(x.frac);
    }
    assert x.frac * Ulp(x) * Pow2(n) == x.frac * Pow2(n) * Ulp(x) by { Swap(x.frac, Ulp(x), Pow2(n)); }
  }

  lemma Swap(x: int, y: int, z: int)
    ensures x * y * z == x * z * y
  {
    MulAssoc(x, y, z);
    MulAssoc(x, z, y);
  }

  /** A pair that equals num/den up to a power of two, exactly. */
  lemma PairScaled(w: nat, s: nat, t: nat, num: nat, den: nat)
    requires den > 0 && w < TWO128
    requires num * TWO64 * Pow2(s) == w * Pow2(t) * den
    ensures Scaled(w / TWO64, w % TWO64 != 0, 1 + t - s, num, den)
  {
    hide Pow2;
    if t >= s {
      PairUp(w, s, t, num, den, Pow2(t - s));
    } else {
      PairDown(w, s, t, num, den, Pow2(s - t));
    }
  }

  lemma PairUp(w: nat, s: nat, t: nat, num: nat, den: nat, g: nat)
    requires den > 0 && t >= s && g == Pow2(t - s) && num * TWO64 * Pow2(s) == w * Pow2(t) * den
    ensures var f, l := w / TWO64, w % TWO64;
            f * g * den <= num < (f + 1) * g * den && (l != 0 <==> num != f * g * den)
  {
    hide Pow2;
    var f, l, ps := w / TWO64, w % TWO64, Pow2(s);
    DivModBasics(w, TWO64);
    assert Pow2(t) == ps * g by { Pow2Add(s, t - s); }
    Rearrange(w, ps, g, den);
    CancelFactor(num * TWO64, w * (g * den), ps);
    MulLt(0, g, den);
    TopPart(num, f, l, g * den);
    MulAssoc(f, g, den);
    MulAssoc(f + 1, g, den);
  }

  lemma PairDown(w: nat, s: nat, t: nat, num: nat, den: nat, c: nat)
    requires den > 0 && s >= t && c == Pow2(s - t) && num * TWO64 * Pow2(s) == w * Pow2(t) * den
    ensures var f, l := w / TWO64, w % TWO64;
            f * den <= num * c < (f + 1) * den && (l != 0 <==> num * c != f * den)
  {
    hide Pow2;
    var f, l, pt := w / TWO64, w % TWO64, Pow2(t);
    DivModBasics(w, TWO64);
    assert Pow2(s) == pt * c by { Pow2Add(t, s - t); }
    RearrangeDown(num, pt, c, w, den);
    CancelFactor(num * c * TWO64, w * den, pt);
    TopPart(num * c, f, l, den);
  }

  lemma Rearrange(w: int, ps: int, g: int, den: int)
    ensures w * (ps * g) * den == w * (g * den) * ps
  {
    calc {
      w * (ps * g) * den;
      { MulAssoc(w, ps * g, den); }
      w * ((ps * g) * den);
      { assert (ps * g) * den == (g * den) * ps; }
      w * ((g * den) * ps);
      { MulAssoc(w, g * den, ps); }
      w * (g * den) * ps;
    }
  }

  lemma RearrangeDown(num: int, pt: int, c: int, w: int, den: int)
    requires num * TWO64 * (pt * c) == w * pt * den
    ensures num * c * TWO64 * pt == w * den * pt
  {
    calc {
      num * c * TWO64 * pt;
      { Swap(num, c, TWO64); MulAssoc(num * TWO64, c, pt); assert c * pt == pt * c; }
      num * TWO64 * (pt * c);
      w * pt * den;
      { Swap(w, pt, den); }
      w * den * pt;
    }
  }

  // ------------------------------------------------------------ multiplication

  lemma ProductOfMags(a: Xfp, b: Xfp, na: nat, nb: nat, fa: nat, fb: nat)
    requires Mag(a) * Pow2(na) == fa * Ulp(a) && Mag(b) * Pow2(nb) == fb * Ulp(b)
    ensures Mag(a) * Mag(b) * Pow2(na + nb) == fa * fb * Pow2(ScaleExp(a) + ScaleExp(b) - 2)
  {
    hide Pow2, Mag;
    Pow2Add(na, nb);
    Pow2Add(ScaleExp(a) - 1, ScaleExp(b) - 1);
    Pairwise(Mag(a), Pow2(na), Mag(b), Pow2(nb));
    Pairwise(fa, Ulp(a), fb, Ulp(b));
  }

  lemma Pairwise(x: int, p: int, y: int, q: int)
    ensures (x * y) * (p * q) == (x * p) * (y * q)
  {
    calc {
      (x * y) * (p * q);
      { MulAssoc(x, y, p * q); }
      x * (y * (p * q));
      { assert y * (p * q) == p * (y * q) by { MulAssoc(y, p, q); MulAssoc(p, y, q); } }
      x * (p * (y * q));
      { MulAssoc(x, p, y * q); }
      (x * p) * (y * q);
    }
  }

  lemma ProductScaled(num: nat, m: nat, prod: nat, t: nat, k: nat, w: nat)
    requires num * Pow2(m) == prod * Pow2(t) && w == prod * Pow2(k)
    ensures num * TWO64 * Pow2(m + UNIT_SHIFT + k) == w * Pow2(t + 64) * Pow2(UNIT_SHIFT)
  {
    hide Pow2;
    var u, pk := Pow2(UNIT_SHIFT), Pow2(k);
    Pow2Add(m, UNIT_SHIFT);
    Pow2Add(m + UNIT_SHIFT, k);
    Pow2Add(t, 64);
    assert Pow2(64) == TWO64 by { Pow2Words(); }
    FourFactors(num, Pow2(m), prod, Pow2(t), u, pk);
  }

  lemma FourFactors(num: int, pm: int, prod: int, pt: int, u: int, pk: int)
    requires num * pm == prod * pt
    ensures num * TWO64 * (pm * u * pk) == prod * pk * (pt * TWO64) * u
  {
    calc {
      num * TWO64 * (pm * u * pk);
      { MulAssoc(pm, u, pk); MulAssoc(num * TWO64, pm, u * pk); Swap(num, TWO64, pm); }
      num * pm * TWO64 * (u * pk);
      prod * pt * TWO64 * (u * pk);
      { MulAssoc(prod * pt * TWO64, u, pk); Swap(prod * pt * TWO64, u, pk); }
      prod * pt * TWO64 * pk * u;
      { MulAssoc(prod, pt, TWO64); Swap(prod, pt * TWO64, pk); }
      prod * pk * (pt * TWO64) * u;
    }
  }

  /**
   The product of two magnitudes: exactly truncated in the normal range, overflow beyond it,
   cut off to whole subnormals below it.  A zero factor gives a zero.
   */
  method XfpMul(a: Xfp, b: Xfp, rm: RoundMode) returns (p: Packed<Xfp>)
    requires Canonical(a) && Canonical(b)
    ensures IsZero(a) || IsZero(b) ==> p == Packed(Xfp(a.sign != b.sign, 0, 0, false), {})
    ensures !IsZero(a) && !IsZero(b) ==> Outcome(p, a.sign != b.sign, Mag(a) * Mag(b), Pow2(UNIT_SHIFT))
  {
    hide Pow2, RoundPackXfp, Outcome, Scaled, Mag, Ulp;
    var sign := a.sign != b.sign;
    if IsZero(a) || IsZero(b) {
      return Packed(Xfp(sign, 0, 0, false), {});
    }
    var ea, fa, na := Unpack(a);
    var eb, fb, nb := Unpack(b);
    var exp := ea + eb - 0x3ffe;
    var r0, r1 := Mul64To128(fa, fb);
    ghost var w, k := fa * fb, 0;
    ProductBounds(fa, fb, r0, r1);
    if r0 != 0 && !Negative(r0) {
      assert Pow2(1) == 2 by { Pow2Small(); }
      r0, r1 := ShortShiftLeft128(r0, r1, 1);
      exp, w, k := exp - 1, 2 * w, 1;
    }
    ProductOfMags(a, b, na, nb, fa, fb);
    ghost var t := ScaleExp(a) + ScaleExp(b) - 2;
    assert w == fa * fb * Pow2(k) by { Pow2Small(); }
    ProductScaled(Mag(a) * Mag(b), na + nb, fa * fb, t, k, w);
    PairScaled(w, na + nb + UNIT_SHIFT + k, t + 64, Mag(a) * Mag(b), Pow2(UNIT_SHIFT));
    DivUnique(w, TWO64, r0);
    PackOutcome(sign, exp, r0, r1, rm, Mag(a) * Mag(b), Pow2(UNIT_SHIFT));
    p := RoundPackXfp(sign, exp, r0, r1, rm);
  }

  lemma ProductBounds(fa: U64, fb: U64, r0: U64, r1: U64)
    requires fa >= TWO63 && fb >= TWO63 && Val(r0, r1) == fa * fb
    ensures 0 < r0 && (r0 < TWO63 ==> TWO63 * TWO64 <= 2 * Val(r0, r1) < TWO128)
  {
    MulLe(TWO63, fa, TWO63);
    MulLe(TWO63, fb, fa);
  }

  // ------------------------------------------------------------ division

  /**
   The correction loop shared by both quotient words: while the remainder is negative, take
   one back off the quotient.  It runs at most twice and leaves the true quotient and remainder.
   */
  method CorrectQuotient(ghost n: int, b: U64, z0: U64, h0: U64, l0: U64) returns (z: U64, h: U64, l: U64)
    requires b > 0 && n >= 0 && Signed(h0, l0) == n - b * z0
    requires -2 * b <= n - b * z0 < b
    ensures z <= z0 <= z + 2 && h == 0 && l < b && n == b * z + l
  {
    hide Signed, Val;
    z, h, l := z0, h0, l0;
    ghost var rem: int := n - b * z;
    while Negative(h)
      invariant rem < b && Signed(h, l) == rem == n - b * z
      invariant (z == z0 && rem + 2 * b >= 0) || (z == z0 - 1 && rem + b >= 0) || (z == z0 - 2 && rem >= 0)
      decreases z
    {
      SignOf(h, l);
      QuotientPositive(n, b, z);
      z := z - 1;
      h, l := AddDivisor(h, l, b);
      rem := rem + b;
    }
    NonNegativeWord(h, l, b);
  }

  lemma NonNegativeWord(h: U64, l: U64, b: U64)
    requires !Negative(h) && Signed(h, l) < b
    ensures h == 0 && Signed(h, l) == l
  {
  }

  lemma SignOf(h: U64, l: U64)
    ensures Negative(h) <==> Signed(h, l) < 0
  {
  }

  lemma QuotientPositive(n: int, b: int, z: nat)
    requires n >= 0 && n - b * z < 0
    ensures z >= 1 && n - b * (z - 1) == n - b * z + b
  {
    assert z != 0;
  }

  method AddDivisor(h: U64, l: U64, b: U64) returns (s0: U64, s1: U64)
    requires Negative(h) && b > 0
    ensures Signed(s0, s1) == Signed(h, l) + b
  {
    s0, s1 := Add128(h, l, 0, b);
    WrappedAdd(h, l, s0, s1, Signed(h, l), b);
  }

  /** One quotient word of a 128-bit numerator, exact, with its remainder. */
  method QuotientWord(a0: U64, a1: U64, b: U64) returns (z: U64, rem: U64)
    requires TWO63 <= b && a0 < b
    ensures z == Val(a0, a1) / b && rem == Val(a0, a1) % b
  {
    ghost var n := Val(a0, a1);
    z := EstimateDiv128To64(a0, a1, b);
    ExcessBounds(n, b, z);
    var t0, t1 := Mul64To128(b, z);
    var r0, r1 := Sub128(a0, a1, t0, t1);
    SignedUnique(r0, r1, n - b * z);
    z, r0, r1 := CorrectQuotient(n, b, z, r0, r1);
    DivUnique(n, b, z);
    rem := r1;
  }

  lemma ExcessBounds(n: nat, b: nat, z: nat)
    requires b > 0 && n / b <= z <= n / b + 2
    ensures -2 * b <= n - b * z < b
  {
    var q := n / b;
    DivModBasics(n, b);
    assert z == q || z == q + 1 || z == q + 2;
    assert b * (q + 1) == q * b + b && b * (q + 2) == q * b + 2 * b;
  }

  /** `tail` is non-zero iff rem is, and compares with one half as rem/b does. */
  ghost predicate TailOf(tail: U64, rem: nat, b: nat) {
    && (tail != 0 <==> rem != 0)
    && (tail < TWO63 <==> 2 * rem < b)
    && (tail == TWO63 <==> 2 * rem == b)
  }

  /**
   The second word of the quotient.  Only an estimate close to zero or one half is corrected;
   elsewhere an excess of up to two cannot change what the tail stands for.
   */
  method TailWord(rem: U64, b: U64) returns (tail: U64)
    requires TWO63 <= b && rem < b
    ensures TailOf(tail, rem, b)
  {
    hide Pow2, TailOf;
    ghost var n, q := rem * TWO64, rem * TWO64 / b;
    DivModBasics(n, b);
    tail := EstimateDiv128To64(rem, 0, b);
    DoubledWord(tail);
    if Shl64(tail, 1) <= 8 {
      ExcessBounds(n, b, tail);
      var t0, t1 := Mul64To128(b, tail);
      var r0, r1 := Sub128(rem, 0, t0, t1);
      SignedUnique(r0, r1, n - b * tail);
      var z;
      z, r0, r1 := CorrectQuotient(n, b, tail, r0, r1);
      DivUnique(n, b, z);
      JammedTail(rem, b, z, r1);
      tail := Jam(z, r0 != 0 || r1 != 0);
    } else {
      EstimatedTail(rem, b, q, tail);
    }
  }

  lemma DoubledWord(x: U64)
    ensures Shl64(x, 1) == if x < TWO63 then 2 * x else 2 * x - TWO64
  {
    Pow2Small();
    DivUnique(x * 2, TWO64, if x < TWO63 then 0 else 1);
  }

  /** Where the exact second word lies, relative to one half. */
  lemma HalfPoint(rem: nat, b: nat, q: nat, r: nat)
    requires b > 0 && rem * TWO64 == b * q + r && r < b
    ensures q < TWO63 <==> 2 * rem < b
    ensures q == TWO63 && r == 0 <==> 2 * rem == b
    ensures rem == 0 <==> q == 0 && r == 0
  {
    if q < TWO63 { MulLe(q + 1, TWO63, b); } else { MulLe(TWO63, q, b); }
    assert (q + 1) * b == b * q + b;
    if q > TWO63 { MulLe(TWO63 + 1, q, b); }
    if q > 0 { MulLe(1, q, b); }
  }

  lemma JammedTail(rem: nat, b: nat, q: U64, r: nat)
    requires TWO63 <= b && rem * TWO64 == b * q + r && r < b
    ensures Jam(q, r != 0) < TWO64 && TailOf(Jam(q, r != 0), rem, b)
  {
    HalfPoint(rem, b, q, r);
  }

  lemma EstimatedTail(rem: nat, b: nat, q: nat, tail: U64)
    requires TWO63 <= b && q == rem * TWO64 / b && q <= tail <= q + 2
    requires if tail < TWO63 then tail > 4 else tail > TWO63 + 4
    ensures TailOf(tail, rem, b)
  {
    DivModBasics(rem * TWO64, b);
    HalfPoint(rem, b, q, (rem * TWO64) % b);
  }

  /** num/den and n/b are the same ratio. */
  lemma SameRatio(num: nat, den: nat, n: nat, b: nat, c: nat, z: nat, q: nat)
    requires c > 0 && z > 0 && num * c == n * z && den * c == b * z
    requires q * b <= n < (q + 1) * b
    ensures q * den <= num < (q + 1) * den
    ensures num == q * den <==> n == q * b
  {
    MulLe(q * b, n, z);
    MulLt(n, (q + 1) * b, z);
    MulAssoc(q, b, z); MulAssoc(q, den, c);
    MulAssoc(q + 1, b, z); MulAssoc(q + 1, den, c);
    MulCancelLe(q * den, num, c);
    MulCancelLt(num, (q + 1) * den, c);
    if num == q * den { CancelFactor(n, q * b, z); }
    if n == q * b { CancelFactor(num, q * den, c); }
  }

  /** The numerator after alignment: at most one bit is moved so that the quotient stays below 2^64. */
  lemma AlignedNumerator(fa: U64, fb: U64, n: nat, k: nat)
    requires fa >= TWO63 && fb >= TWO63 && k <= 1 && (k == 1 <==> fb <= fa)
    requires n == fa * Pow2(64 - k)
    ensures TWO63 * fb <= n < TWO64 * fb
  {
    hide Pow2;
    assert Pow2(64) == TWO64 && Pow2(63) == TWO63 by { Pow2Words(); }
    if k == 1 {
      MulLe(fb, fa, TWO63);
    } else {
      MulLt(fa, fb, TWO64);
    }
  }

  /** Dividing significands is dividing magnitudes, up to the exponent difference. */
  lemma QuotientScaled(a: Xfp, b: Xfp, na: nat, nb: nat, fa: nat, fb: nat, k: nat, e: int, q: nat, tail: bool)
    requires Mag(a) * Pow2(na) == fa * Ulp(a) && Mag(b) * Pow2(nb) == fb * Ulp(b)
    requires k <= 1 && e == ScaleExp(a) - na - (ScaleExp(b) - nb) + 0x3ffe + k
    requires q * fb <= fa * Pow2(64 - k) < (q + 1) * fb && (tail <==> fa * Pow2(64 - k) != q * fb)
    ensures Scaled(q, tail, e, Mag(a) * Pow2(UNIT_SHIFT), Mag(b))
  {
    hide Pow2, Mag;
    var c := Pow2(na + nb + 64 - k);
    var n := fa * Pow2(64 - k);
    NumeratorPower(a, na, nb, fa, k);
    DenominatorPower(b, na, nb, fb, k);
    var zn, zd := ScaleExp(a) - 1 + UNIT_SHIFT + nb, ScaleExp(b) - 1 + na + 64 - k;
    if e >= 1 {
      assert zn == zd + (e - 1);
      Pow2Add(zd, e - 1);
      var g := Pow2(e - 1);
      assert g * Mag(b) * c == fb * Pow2(zn) by { Swap(Mag(b), g, c); MulAssoc(fb, Pow2(zd), g); }
      SameRatio(Mag(a) * Pow2(UNIT_SHIFT), g * Mag(b), n, fb, c, Pow2(zn), q);
      MulAssoc(q, g, Mag(b));
      MulAssoc(q + 1, g, Mag(b));
    } else {
      assert zd == zn + (1 - e);
      Pow2Add(zn, 1 - e);
      var g := Pow2(1 - e);
      assert Mag(a) * Pow2(UNIT_SHIFT) * g * c == n * Pow2(zd) by {
        Swap(Mag(a) * Pow2(UNIT_SHIFT), g, c);
        MulAssoc(n, Pow2(zn), g);
      }
      SameRatio(Mag(a) * Pow2(UNIT_SHIFT) * g, Mag(b), n, fb, c, Pow2(zd), q);
    }
  }

  lemma NumeratorPower(a: Xfp, na: nat, nb: nat, fa: nat, k: nat)
    requires Mag(a) * Pow2(na) == fa * Ulp(a) && k <= 1
    ensures Mag(a) * Pow2(UNIT_SHIFT) * Pow2(na + nb + 64 - k)
         == fa * Pow2(64 - k) * Pow2(ScaleExp(a) - 1 + UNIT_SHIFT + nb)
  {
    hide Pow2, Mag;
    var m, u, s := Mag(a), Pow2(UNIT_SHIFT), Pow2(64 - k);
    Pow2Add(na, nb);
    Pow2Add(na + nb, 64 - k);
    Pow2Add(ScaleExp(a) - 1, UNIT_SHIFT);
    Pow2Add(ScaleExp(a) - 1 + UNIT_SHIFT, nb);
    Regather(m, Pow2(na), fa, Ulp(a), u, Pow2(nb), s);
  }

  lemma Regather(m: int, pa: int, f: int, ul: int, u: int, pb: int, s: int)
    requires m * pa == f * ul
    ensures m * u * (pa * pb * s) == f * s * (ul * u * pb)
  {
    calc {
      m * u * (pa * pb * s);
      { MulAssoc(pa, pb, s); MulAssoc(m * u, pa, pb * s); Swap(m, u, pa); }
      m * pa * u * (pb * s);
      f * ul * u * (pb * s);
      { MulAssoc(f * ul * u, pb, s); MulAssoc(f, ul, u); MulAssoc(f, ul * u, pb); }
      f * (ul * u * pb) * s;
      { Swap(f, ul * u * pb, s); }
      f * s * (ul * u * pb);
    }
  }

  lemma DenominatorPower(b: Xfp, na: nat, nb: nat, fb: nat, k: nat)
    requires Mag(b) * Pow2(nb) == fb * Ulp(b) && k <= 1
    ensures Mag(b) * Pow2(na + nb + 64 - k) == fb * Pow2(ScaleExp(b) - 1 + na + 64 - k)
  {
    hide Pow2, Mag;
    var r := Pow2(na + 64 - k);
    Pow2Add(nb, na + 64 - k);
    Pow2Add(ScaleExp(b) - 1, na + 64 - k);
    MulAssoc(Mag(b), Pow2(nb), r);
    MulAssoc(fb, Ulp(b), r);
  }

  const DEFAULT_NAN: Xfp := Xfp(true, 0x7fff, 0xc000_0000_0000_0000, false)

  /**
   The quotient of two magnitudes: exactly truncated in the normal range, with the tail word
   standing for the discarded part; overflow beyond it; whole subnormals below it.
   A zero divisor is invalid when the dividend's exponent field is zero, otherwise a division
   by zero whose result depends on whether that exception is enabled.  The invalid result
   leaves the sticky field as it was (`stale`).
   */
  method XfpDiv(a: Xfp, b: Xfp, rm: RoundMode, trapZero: bool, stale: bool) returns (p: Packed<Xfp>)
    requires Canonical(a) && Canonical(b)
    ensures !IsZero(b) && !IsZero(a) ==> Outcome(p, a.sign != b.sign, Mag(a) * Pow2(UNIT_SHIFT), Mag(b))
    ensures !IsZero(b) && IsZero(a) ==> p == Packed(Xfp(a.sign != b.sign, 0, 0, false), {})
    ensures IsZero(b) && a.exp == 0 ==> p == Packed(DEFAULT_NAN.(sticky := stale), {Invalid})
    ensures IsZero(b) && a.exp != 0 ==> p.raised == {DivideByZero}
    ensures IsZero(b) && a.exp != 0 ==>
              p.value == if trapZero then Xfp(false, 0x7fff, TWO63, false) else Xfp(a.sign != b.sign, 0x7fff, 0, false)
  {
    hide Pow2, RoundPackXfp, Outcome, Scaled, Mag, Ulp, TailOf;
    var sign := a.sign != b.sign;
    if IsZero(b) {
      if a.exp == 0 {
        return Packed(DEFAULT_NAN.(sticky := stale), {Invalid});
      }
      return Packed(if trapZero then Xfp(false, 0x7fff, TWO63, false) else Xfp(sign, 0x7fff, 0, false), {DivideByZero});
    }
    if IsZero(a) {
      return Packed(Xfp(sign, 0, 0, false), {});
    }
    var eb, fb, nb := Unpack(b);
    var ea, fa, na := Unpack(a);
    var q, tail, k := DivideFractions(fa, fb);
    var exp := ea - eb + 0x3ffe + k;
    QuotientScaled(a, b, na, nb, fa, fb, k, exp, q, tail != 0);
    assert Mag(b) > 0 by { PositiveMag(b); }
    PackOutcome(sign, exp, q, tail, rm, Mag(a) * Pow2(UNIT_SHIFT), Mag(b));
    p := RoundPackXfp(sign, exp, q, tail, rm);
  }

  lemma PositiveMag(b: Xfp)
    requires Canonical(b) && !IsZero(b)
    ensures Mag(b) > 0
  {
    MulLt(0, b.frac, Ulp(b));
  }

  /** Halve the dividend if needed to keep the quotient below 2^64; `k` tells whether it was. */
  method AlignDividend(fa: U64, fb: U64) returns (a0: U64, a1: U64, k: nat)
    requires fa >= TWO63 && fb >= TWO63
    ensures k <= 1 && (k == 1 <==> fb <= fa) && a0 < fb && Val(a0, a1) == fa * Pow2(64 - k)
  {
    hide Pow2;
    assert Pow2(64) == TWO64 && Pow2(63) == TWO63 by { Pow2Words(); }
    k, a0, a1 := 0, fa, 0;
    if fb <= fa {
      a0, a1 := ShiftRight128(fa, 0, 1);
      assert Val(fa, 0) / Pow2(1) == fa * TWO63 by { Pow2Small(); }
      k := 1;
    }
  }

  /** Both quotient words of two normalized significands. */
  method DivideFractions(fa: U64, fb: U64) returns (q: U64, tail: U64, k: nat)
    requires fa >= TWO63 && fb >= TWO63
    ensures k <= 1 && q >= TWO63
    ensures q * fb <= fa * Pow2(64 - k) < (q + 1) * fb
    ensures TailOf(tail, fa * Pow2(64 - k) - q * fb, fb)
    ensures tail != 0 <==> fa * Pow2(64 - k) != q * fb
  {
    hide Pow2, TailOf, Val;
    var a0, a1;
    a0, a1, k := AlignDividend(fa, fb);
    AlignedNumerator(fa, fb, Val(a0, a1), k);
    var rem;
    q, rem := QuotientWord(a0, a1, fb);
    NormalizedQuotient(Val(a0, a1), fb);
    tail := TailWord(rem, fb);
    TailNonZero(tail, rem, fb);
  }

  lemma NormalizedQuotient(n: nat, b: nat)
    requires b > 0 && TWO63 * b <= n
    ensures n / b >= TWO63 && (n / b) * b <= n < (n / b + 1) * b && n % b == n - (n / b) * b
  {
    var q := n / b;
    DivModBasics(n, b);
    assert (q + 1) * b == q * b + b;
    if q < TWO63 { MulLe(q + 1, TWO63, b); }
  }

  lemma TailNonZero(tail: U64, rem: nat, b: nat)
    requires TailOf(tail, rem, b)
    ensures tail != 0 <==> rem != 0
  {
  }
}
