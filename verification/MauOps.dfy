/**
 The accelerator's operations as its instructions see them: an arithmetic routine, its
 conditions recorded in the status register, and the conversion to a double destination.
 */
module MauOps {
  import opened Powers
  import opened Words128
  import opened Xfp
  import opened RoundPack
  import opened AddSub
  import opened MulDiv
  import opened Doubles

  function Abs(x: int): nat {
    if x < 0 then -x else x
  }

  /** Status after raising Inexact or not: no other sticky condition appears. */
  ghost predicate OnlyInexact(before: set<AsrBit>, after: set<AsrBit>, inexact: bool) {
    && (PS in after <==> PS in before || inexact)
    && before <= after <= before + {PS, ECP}
    && (ECP in after ==> ECP in before || (inexact && PM in before))
  }

  lemma ReportInexact(before: set<AsrBit>, after: set<AsrBit>, inexact: bool)
    requires after == before + StickyBits(When(inexact, Inexact))
                      + (if exists c :: c in When(inexact, Inexact) && Enabled(c, before) then {ECP} else {})
    ensures OnlyInexact(before, after, inexact)
  {
    if inexact { assert StickyBits({Inexact}) == {PS}; } else { assert StickyBits({}) == {}; }
  }

  /** Addition of signed values: equal signs add magnitudes, different signs subtract them. */
  method XfpAdd(mau: Mau, a: Xfp, b: Xfp, rm: RoundMode) returns (r: Xfp)
    requires Canonical(a) && Canonical(b)
    modifies mau
    ensures var s := SignedMag(a) + SignedMag(b);
            Abs(s) < Limit() ==>
              && Canonical(r) && Truncates(r, Abs(s), 1) && (s != 0 ==> r.sign == (s < 0))
              && OnlyInexact(old(mau.asr), mau.asr, r.sticky)
    ensures Abs(SignedMag(a) + SignedMag(b)) >= Limit() ==> {OS, PS} <= mau.asr
  {
    hide Mag, Limit, Truncates;
    var p;
    if a.sign == b.sign {
      p := XfpAddFracs(a, b, a.sign, rm);
    } else {
      p := XfpSubFracs(a, b, a.sign, rm);
      SubWithinLimit(a, b);
      if Mag(a) == Mag(b) { ZeroTruncates(rm == MinusInf); }
    }
    r := p.value;
    mau.Report(p.raised);
    if Abs(SignedMag(a) + SignedMag(b)) < Limit() {
      ReportInexact(old(mau.asr), mau.asr, r.sticky);
    } else {
      OverflowBits(p.raised);
    }
  }

  lemma OverflowBits(raised: set<Cond>)
    requires raised == {Overflow, Inexact}
    ensures {OS, PS} <= StickyBits(raised)
  {
    assert StickyBit(Overflow) in StickyBits(raised);
    assert StickyBit(Inexact) in StickyBits(raised);
  }

  lemma ZeroTruncates(sign: bool)
    ensures Canonical(Xfp(sign, 0, 0, false)) && Truncates(Xfp(sign, 0, 0, false), 0, 1)
  {
  }

  /** A difference of finite magnitudes stays finite. */
  lemma SubWithinLimit(a: Xfp, b: Xfp)
    requires Canonical(a) && Canonical(b)
    ensures Mag(a) < Limit() && Mag(b) < Limit()
  {
    FiniteBelowLimit(a);
    FiniteBelowLimit(b);
  }

  lemma FiniteBelowLimit(a: Xfp)
    requires Canonical(a)
    ensures Mag(a) < Limit()
  {
    hide Pow2, Limit;
    MulLt(a.frac, TWO64, Ulp(a));
    BelowLimit(TWO64, ScaleExp(a), Mag(a));
  }

  /** Subtraction adds with the second sign reversed. */
  method XfpSub(mau: Mau, a: Xfp, b: Xfp, rm: RoundMode) returns (r: Xfp)
    requires Canonical(a) && Canonical(b)
    modifies mau
    ensures var s := SignedMag(a) - SignedMag(b);
            Abs(s) < Limit() ==>
              && Canonical(r) && Truncates(r, Abs(s), 1) && (s != 0 ==> r.sign == (s < 0))
              && OnlyInexact(old(mau.asr), mau.asr, r.sticky)
    ensures Abs(SignedMag(a) - SignedMag(b)) >= Limit() ==> {OS, PS} <= mau.asr
  {
    hide Mag, Limit, Truncates;
    var p;
    if a.sign == b.sign {
      p := XfpSubFracs(a, b, a.sign, rm);
      SubWithinLimit(a, b);
      if Mag(a) == Mag(b) { ZeroTruncates(rm == MinusInf); }
    } else {
      p := XfpAddFracs(a, b, a.sign, rm);
    }
    r := p.value;
    mau.Report(p.raised);
    if Abs(SignedMag(a) - SignedMag(b)) < Limit() {
      ReportInexact(old(mau.asr), mau.asr, r.sticky);
    } else {
      OverflowBits(p.raised);
    }
  }

  // ------------------------------------------------------------ double destinations

  /** `bits` is the double nearest to the value of sign `sign` and magnitude num/den. */
  ghost predicate IsRoundedDouble(bits: nat, sign: bool, num: nat, den: nat, k: nat) {
    bits == Bit(sign) * TWO63 + k && NearestEven(k, num, den)
  }

  /** Recording any set of conditions touches PS iff Inexact is among them. */
  lemma ReportedPS(before: set<AsrBit>, after: set<AsrBit>, raised: set<Cond>)
    requires after == before + StickyBits(raised)
                      + (if exists c :: c in raised && Enabled(c, before) then {ECP} else {})
    ensures PS in after <==> PS in before || Inexact in raised
  {
    if Inexact in raised { assert StickyBit(Inexact) in StickyBits(raised); }
  }

  /** Store a truncated result in a double destination, rounding to nearest. */
  method NarrowResult(mau: Mau, r: Xfp, ghost num: nat, ghost den: nat) returns (bits: nat, ghost k: nat)
    requires Canonical(r) && den > 0 && Truncates(r, num, den) && num < DMag(INF) * den
    modifies mau
    ensures IsRoundedDouble(bits, r.sign, num, den, k)
    ensures r.sticky ==> DMag(k) * den != num
    ensures PS in old(mau.asr) ==> PS in mau.asr
    ensures !r.sticky ==> (PS in mau.asr <==> PS in old(mau.asr) || DMag(k) * den != num)
  {
    hide Mag, Truncates, DMag, XfpToDfp, NearestEven;
    SingleRounding(r, num, den);
    var p := XfpToDfp(r, RoundMode.Nearest);
    bits := p.value;
    k := p.value - Bit(r.sign) * TWO63;
    mau.Report(p.raised);
    ReportedPS(old(mau.asr), mau.asr, p.raised);
  }

  /** The extended range contains the double range. */
  lemma DoubleRangeBelowLimit(num: nat)
    requires num < DMag(INF)
    ensures num < Limit()
  {
    hide Pow2, DMag;
    var e := 0x7fe + DOUBLE_SHIFT;
    assert DMag(INF) == TWO52 * Pow2(e) by { Binade(0x7fe, TWO52); }
    Pow2Monotone(e, EXP_MAX - 2);
    MulLe(Pow2(e), Pow2(EXP_MAX - 2), TWO52);
    MulLe(TWO52, TWO64, Pow2(EXP_MAX - 2));
  }

  /**
   Add, then store as a double: one correct rounding of the exact sum, with the inexact
   sticky bit set iff the stored double differs from it.
   */
  method AddToDouble(mau: Mau, a: Xfp, b: Xfp) returns (bits: nat, ghost sign: bool, ghost k: nat)
    requires Canonical(a) && Canonical(b) && Abs(SignedMag(a) + SignedMag(b)) < DMag(INF)
    modifies mau
    ensures var s := SignedMag(a) + SignedMag(b);
            && IsRoundedDouble(bits, sign, Abs(s), 1, k) && (s != 0 ==> sign == (s < 0))
            && (PS in mau.asr <==> PS in old(mau.asr) || DMag(k) != Abs(s))
  {
    hide Mag, Truncates, DMag, Limit, IsRoundedDouble;
    ghost var s := SignedMag(a) + SignedMag(b);
    DoubleRangeBelowLimit(Abs(s));
    var r := XfpAdd(mau, a, b, RoundMode.Nearest);
    sign := r.sign;
    bits, k := NarrowResult(mau, r, Abs(s), 1);
  }

  /** Subtract, then store as a double: one correct rounding of the exact difference. */
  method SubToDouble(mau: Mau, a: Xfp, b: Xfp) returns (bits: nat, ghost sign: bool, ghost k: nat)
    requires Canonical(a) && Canonical(b) && Abs(SignedMag(a) - SignedMag(b)) < DMag(INF)
    modifies mau
    ensures var s := SignedMag(a) - SignedMag(b);
            && IsRoundedDouble(bits, sign, Abs(s), 1, k) && (s != 0 ==> sign == (s < 0))
            && (PS in mau.asr <==> PS in old(mau.asr) || DMag(k) != Abs(s))
  {
    hide Mag, Truncates, DMag, Limit, IsRoundedDouble;
    ghost var s := SignedMag(a) - SignedMag(b);
    DoubleRangeBelowLimit(Abs(s));
    var r := XfpSub(mau, a, b, RoundMode.Nearest);
    sign := r.sign;
    bits, k := NarrowResult(mau, r, Abs(s), 1);
  }

  /** A product or quotient in any range, a zero included. */
  ghost predicate OutcomeOrZero(p: Packed<Xfp>, sign: bool, num: nat, den: nat) {
    if num == 0 then p == Packed(Xfp(sign, 0, 0, false), {}) else Outcome(p, sign, num, den)
  }

  /** Store a product or quotient in a double destination, whatever range it fell in. */
  method NarrowOutcome(mau: Mau, p: Packed<Xfp>, ghost sign: bool, ghost num: nat, ghost den: nat)
    returns (bits: nat, ghost k: nat)
    requires den > 0 && OutcomeOrZero(p, sign, num, den) && num < DMag(INF) * den
    modifies mau
    ensures IsRoundedDouble(bits, sign, num, den, k)
    ensures PS in mau.asr <==> PS in old(mau.asr) || DMag(k) * den != num
  {
    hide Mag, Truncates, DMag, Limit, IsRoundedDouble, NearestEven, XfpToDfp, OutcomeOrZero;
    OutcomeCanonical(p, sign, num, den);
    mau.Report(p.raised);
    ReportedPS(old(mau.asr), mau.asr, p.raised);
    var q := XfpToDfp(p.value, RoundMode.Nearest);
    bits := q.value;
    label L:
    mau.Report(q.raised);
    ReportedPS(old@L(mau.asr), mau.asr, q.raised);
    k := OutcomeRounds(p, sign, num, den);
  }

  lemma OutcomeCanonical(p: Packed<Xfp>, sign: bool, num: nat, den: nat)
    requires den > 0 && OutcomeOrZero(p, sign, num, den) && num < DMag(INF) * den
    ensures Canonical(p.value)
  {
    hide Limit, DMag;
    RatioBelowLimit(num, den);
  }

  lemma OutcomeRounds(p: Packed<Xfp>, sign: bool, num: nat, den: nat) returns (k: nat)
    requires den > 0 && OutcomeOrZero(p, sign, num, den) && num < DMag(INF) * den && Finite(p.value)
    ensures var q := XfpToDfp(p.value, RoundMode.Nearest);
            && IsRoundedDouble(q.value, sign, num, den, k)
            && (Inexact in p.raised || Inexact in q.raised <==> DMag(k) * den != num)
  {
    hide Truncates, DMag, Limit, NearestEven, XfpToDfp;
    if num < TWO63 * den {
      TinyNearest(num, den);
      TinyPack(p.value);
      k := 0;
    } else {
      RatioBelowLimit(num, den);
      SingleRounding(p.value, num, den);
      k := XfpToDfp(p.value, RoundMode.Nearest).value - Bit(sign) * TWO63;
    }
  }

  lemma RatioBelowLimit(num: nat, den: nat)
    requires den > 0 && num < DMag(INF) * den
    ensures num < Limit() * den
  {
    hide Pow2, DMag, Limit;
    DoubleRangeBelowLimit(DMag(INF) - 1);
    MulLe(DMag(INF), Limit(), den);
  }

  lemma MagIsZero(a: Xfp)
    requires Canonical(a)
    ensures IsZero(a) <==> Mag(a) == 0
  {
    if !IsZero(a) {
      PositiveMag(a);
    }
  }

  /** Multiply, then store as a double: one correct rounding of the exact product. */
  method MulToDouble(mau: Mau, a: Xfp, b: Xfp) returns (bits: nat, ghost k: nat)
    requires Canonical(a) && Canonical(b)
    requires Mag(a) * Mag(b) < DMag(INF) * Pow2(UNIT_SHIFT)
    modifies mau
    ensures var num, den := Mag(a) * Mag(b), Pow2(UNIT_SHIFT);
            && IsRoundedDouble(bits, a.sign != b.sign, num, den, k)
            && (PS in mau.asr <==> PS in old(mau.asr) || DMag(k) * den != num)
  {
    hide Mag, DMag, Outcome, Pow2, IsRoundedDouble;
    var p := XfpMul(a, b, RoundMode.Nearest);
    MagIsZero(a);
    MagIsZero(b);
    if !IsZero(a) && !IsZero(b) {
      MulLt(0, Mag(a), Mag(b));
    }
    bits, k := NarrowOutcome(mau, p, a.sign != b.sign, Mag(a) * Mag(b), Pow2(UNIT_SHIFT));
  }

  /** Divide, then store as a double: one correct rounding of the exact quotient. */
  method DivToDouble(mau: Mau, a: Xfp, b: Xfp) returns (bits: nat, ghost k: nat)
    requires Canonical(a) && Canonical(b) && !IsZero(b)
    requires Mag(a) * Pow2(UNIT_SHIFT) < DMag(INF) * Mag(b)
    modifies mau
    ensures var num, den := Mag(a) * Pow2(UNIT_SHIFT), Mag(b);
            && IsRoundedDouble(bits, a.sign != b.sign, num, den, k)
            && (PS in mau.asr <==> PS in old(mau.asr) || DMag(k) * den != num)
  {
    hide Mag, DMag, Outcome, Pow2, IsRoundedDouble;
    var p := XfpDiv(a, b, RoundMode.Nearest, QM in mau.asr, false);
    MagIsZero(a);
    MagIsZero(b);
    if !IsZero(a) {
      MulLt(0, Mag(a), Pow2(UNIT_SHIFT));
    }
    bits, k := NarrowOutcome(mau, p, a.sign != b.sign, Mag(a) * Pow2(UNIT_SHIFT), Mag(b));
  }
}
