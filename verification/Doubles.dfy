/**
 Conversion between extended and double precision.

 The reference is declarative: a bit pattern is the correctly rounded one when no other
 double is closer to the exact value, and ties go to the even pattern (section 4.1 of
 IEEE 754-1985).
 */
module Doubles {
  import opened Powers
  import opened Words128
  import opened Shifts
  import opened Xfp
  import opened RoundPack

  /** The pattern of infinity; as a magnitude it stands for 2^1024, where overflow begins. */
  const INF: nat := 0x7ff * TWO52

  /** The smallest subnormal double in Mag's unit is 2^DOUBLE_SHIFT. */
  const DOUBLE_SHIFT: nat := 0x3c00 + 11

  /** The magnitude of an unsigned double bit pattern, in Mag's unit. */
  function DMag(k: nat): nat {
    if k < TWO52 then k * Pow2(DOUBLE_SHIFT)
    else (TWO52 + k % TWO52) * Pow2(k / TWO52 - 1 + DOUBLE_SHIFT)
  }

  function Dist(x: int, y: int): nat {
    if x < y then y - x else x - y
  }

  /** `j` is not nearer to num/den than `k`, and equally near only if `k` is even. */
  predicate NoNearer(j: nat, k: nat, num: nat, den: nat) {
    && Dist(num, DMag(k) * den) <= Dist(num, DMag(j) * den)
    && (j != k && Dist(num, DMag(k) * den) == Dist(num, DMag(j) * den) ==> k % 2 == 0)
  }

  /** `k` is the double nearest num/den, the even one if two are equally near. */
  ghost predicate NearestEven(k: nat, num: nat, den: nat) {
    k <= INF && forall j: nat :: j <= INF ==> NoNearer(j, k, num, den)
  }

  function XfpToDfp(x: Xfp, rm: RoundMode): (p: Packed<nat>)
    requires Finite(x)
  {
    var exp := if x.exp != 0 || x.frac != 0 then x.exp - 0x3c01 else 0;
    RoundPackDfp(x.sign, exp, x.frac, x.sticky, rm)
  }

  // ------------------------------------------------------------ the order of the doubles

  /** Patterns with a common exponent field are equally spaced, up to and including the next. */
  lemma Binade(e: nat, f: nat)
    requires TWO52 <= f <= 2 * TWO52
    ensures DMag(e * TWO52 + f) == f * Pow2(e + DOUBLE_SHIFT)
  {
    var k := e * TWO52 + f;
    if f < 2 * TWO52 {
      DivUnique(k, TWO52, e + 1);
    } else {
      DivUnique(k, TWO52, e + 2);
      assert Pow2(e + 1 + DOUBLE_SHIFT) == 2 * Pow2(e + DOUBLE_SHIFT);
    }
  }

  lemma Subnormals(f: nat)
    requires f <= TWO52
    ensures DMag(f) == f * Pow2(DOUBLE_SHIFT)
  {
    if f == TWO52 { Binade(0, f); }
  }

  /** Larger patterns are larger numbers. */
  lemma {:induction false} DMagMonotone(j: nat, k: nat)
    requires j <= k
    ensures DMag(j) <= DMag(k)
    decreases k - j
  {
    if j < k {
      DMagStep(j);
      DMagMonotone(j + 1, k);
    }
  }

  lemma DMagStep(k: nat)
    ensures DMag(k) < DMag(k + 1)
  {
    if k < TWO52 {
      Subnormals(k);
      Subnormals(k + 1);
      MulLt(k, k + 1, Pow2(DOUBLE_SHIFT));
    } else {
      var e, f := k / TWO52 - 1, TWO52 + k % TWO52;
      DivModBasics(k, TWO52);
      Binade(e, f);
      Binade(e, f + 1);
      MulLt(f, f + 1, Pow2(e + DOUBLE_SHIFT));
    }
  }

  lemma ScaledOrder(j: nat, k: nat, den: nat)
    requires j < k && den > 0
    ensures DMag(j) * den < DMag(k) * den
  {
    hide DMag;
    DMagStep(j);
    DMagMonotone(j + 1, k);
    MulLt(DMag(j), DMag(k), den);
  }

  /** Between two neighbours, the nearer one is the nearest of all. */
  lemma NearestOfNeighbours(k: nat, num: nat, den: nat, up: bool)
    requires k < INF && den > 0
    requires DMag(k) * den <= num <= DMag(k + 1) * den
    requires up ==> 2 * num >= DMag(k) * den + DMag(k + 1) * den
    requires !up ==> 2 * num <= DMag(k) * den + DMag(k + 1) * den
    requires 2 * num == DMag(k) * den + DMag(k + 1) * den ==> (if up then k + 1 else k) % 2 == 0
    ensures NearestEven(if up then k + 1 else k, num, den)
  {
    hide DMag;
    var r := if up then k + 1 else k;
    forall j: nat | j <= INF
      ensures NoNearer(j, r, num, den)
    {
      Candidate(j, k, num, den, up);
    }
  }

  /** No pattern beats the nearer neighbour, and only the other neighbour can draw level. */
  lemma Candidate(j: nat, k: nat, num: nat, den: nat, up: bool)
    requires den > 0 && DMag(k) * den <= num <= DMag(k + 1) * den
    requires up ==> 2 * num >= DMag(k) * den + DMag(k + 1) * den
    requires !up ==> 2 * num <= DMag(k) * den + DMag(k + 1) * den
    ensures var r := if up then k + 1 else k;
            && Dist(num, DMag(r) * den) <= Dist(num, DMag(j) * den)
            && (j != r && Dist(num, DMag(r) * den) == Dist(num, DMag(j) * den)
                ==> 2 * num == DMag(k) * den + DMag(k + 1) * den)
  {
    hide DMag;
    ScaledOrder(k, k + 1, den);
    if j < k {
      ScaledOrder(j, k, den);
    } else if k + 1 < j {
      ScaledOrder(k + 1, j, den);
    }
    Closer(num, DMag(k) * den, DMag(k + 1) * den, DMag(j) * den, up);
  }

  lemma Closer(num: int, lo: int, hi: int, x: int, up: bool)
    requires lo <= num <= hi && lo < hi && (x <= lo || hi <= x)
    requires if up then 2 * num >= lo + hi else 2 * num <= lo + hi
    ensures var c := if up then hi else lo;
            Dist(num, c) <= Dist(num, x) && (x != c && Dist(num, c) == Dist(num, x) ==> 2 * num == lo + hi)
  {
  }

  // ------------------------------------------------------------ rounding to nearest

  /** Whether eleven bits below `q / 2048`, with `inexact` standing for everything below `q`, round up. */
  predicate RoundsUp(q: nat, inexact: bool) {
    var bits := q % 0x800;
    bits >= 0x400 && (bits % 0x400 != 0 || inexact || (q / 0x800) % 2 == 1)
  }

  /**
   The guard, round and sticky bits decide correctly: `q` counts units `d` in `num`, of which
   2048 make the spacing of the doubles around it.
   */
  lemma DecisionIsNearest(q: nat, inexact: bool, d: nat, num: nat)
    requires d > 0 && q * d <= num < (q + 1) * d
    requires inexact <==> num != q * d
    ensures var lo, hi := (q / 0x800) * (0x800 * d), (q / 0x800 + 1) * (0x800 * d);
            && lo <= num <= hi
            && (if RoundsUp(q, inexact) then 2 * num >= lo + hi else 2 * num <= lo + hi)
            && (2 * num == lo + hi ==> (RoundsUp(q, inexact) <==> (q / 0x800) % 2 == 1))
            && (num == lo <==> q % 0x800 == 0 && !inexact)
  {
    var f, bits := q / 0x800, q % 0x800;
    SplitUnits(f, bits, d);
    TailBounds(bits, d);
    Weigh(f * d, bits * d, d, bits, f % 2 == 1, inexact, num);
  }

  lemma SplitUnits(f: nat, bits: nat, d: nat)
    ensures (0x800 * f + bits) * d == 0x800 * (f * d) + bits * d
    ensures (0x800 * f + bits + 1) * d == 0x800 * (f * d) + bits * d + d
    ensures f * (0x800 * d) == 0x800 * (f * d)
    ensures (f + 1) * (0x800 * d) == 0x800 * (f * d) + 0x800 * d
  {
  }

  lemma TailBounds(bits: nat, d: nat)
    requires bits < 0x800
    ensures 0 <= bits * d && bits * d + d <= 0x800 * d
    ensures bits < 0x400 ==> bits * d + d <= 0x400 * d
    ensures bits > 0x400 ==> bits * d >= 0x401 * d
    ensures bits > 0 ==> bits * d >= d
  {
    MulLe(bits + 1, 0x800, d);
    if bits < 0x400 { MulLe(bits + 1, 0x400, d); }
    if bits > 0x400 { MulLe(0x401, bits, d); }
    if bits > 0 { MulLe(1, bits, d); }
  }

  /** `num` is 2048x + y plus less than one unit d; the midpoint is 2048x + 1024d. */
  lemma Weigh(x: int, y: int, d: int, bits: nat, odd: bool, inexact: bool, num: int)
    requires d > 0 && bits < 0x800 && 0x800 * x + y <= num < 0x800 * x + y + d
    requires 0 <= y && y + d <= 0x800 * d
    requires bits < 0x400 ==> y + d <= 0x400 * d
    requires bits == 0x400 ==> y == 0x400 * d
    requires bits > 0x400 ==> y >= 0x401 * d
    requires if bits > 0 then y >= d else y == 0
    requires inexact <==> num != 0x800 * x + y
    ensures var up := bits >= 0x400 && (bits % 0x400 != 0 || inexact || odd);
            var lo, hi := 0x800 * x, 0x800 * x + 0x800 * d;
            && lo <= num <= hi
            && (if up then 2 * num >= lo + hi else 2 * num <= lo + hi)
            && (2 * num == lo + hi ==> (up <==> odd))
            && (num == lo <==> bits == 0 && !inexact)
  {
  }

  /** The fraction chosen by RoundFrac in the nearest mode. */
  lemma NearestFrac(sign: bool, frac: U64, sticky: bool)
    ensures RoundFrac(sign, frac, sticky, Nearest) == frac / 0x800 + Bit(RoundsUp(frac, sticky))
  {
  }

  /** Jamming lost bits into the fraction does not change the decision. */
  lemma JamKeepsDecision(q: nat, lost: bool, sticky: bool)
    ensures var j := Jam(q, lost);
            && j / 0x800 == q / 0x800 && (RoundsUp(j, sticky) <==> RoundsUp(q, lost || sticky))
            && (j % 0x800 != 0 <==> q % 0x800 != 0 || lost)
  {
    JamDigits(q, lost);
    JamTail(q % 0x800, lost);
  }

  /** Jamming happens in the low eleven bits. */
  lemma JamDigits(q: nat, lost: bool)
    ensures Jam(q, lost) / 0x800 == q / 0x800 && Jam(q, lost) % 0x800 == Jam(q % 0x800, lost)
  {
    var f, bits := q / 0x800, q % 0x800;
    assert q == f * 0x800 + bits && q % 2 == bits % 2;
    DivUnique(Jam(q, lost), 0x800, f);
  }

  lemma JamTail(bits: nat, lost: bool)
    requires bits < 0x800
    ensures var j := Jam(bits, lost);
            && (j >= 0x400 <==> bits >= 0x400) && (j != 0 <==> bits != 0 || lost)
            && (bits >= 0x400 ==> (j % 0x400 != 0 <==> bits % 0x400 != 0 || lost))
  {
  }

  /** The packed pattern is one of the two neighbours of num/den, chosen by RoundsUp. */
  lemma PackNeighbour(k: nat, q: nat, inexact: bool, d: nat, num: nat, den: nat, ulp: nat)
    requires k < INF && den > 0 && ulp > 0 && d == ulp * den
    requires q * d <= num < (q + 1) * d && (inexact <==> num != q * d)
    requires DMag(k) == (q / 0x800) * (0x800 * ulp) && DMag(k + 1) == (q / 0x800 + 1) * (0x800 * ulp)
    requires k % 2 == (q / 0x800) % 2
    ensures var r := k + Bit(RoundsUp(q, inexact));
            NearestEven(r, num, den) && (DMag(r) * den == num <==> q % 0x800 == 0 && !inexact)
  {
    hide DMag;
    var f := q / 0x800;
    assert d > 0 by { MulLt(0, ulp, den); }
    ScaleNeighbour(f, ulp, den, d);
    ScaleNeighbour(f + 1, ulp, den, d);
    DecisionIsNearest(q, inexact, d, num);
    NearestOfNeighbours(k, num, den, RoundsUp(q, inexact));
    StrictlyBelow(f, q, d, num);
  }

  lemma ScaleNeighbour(f: nat, ulp: nat, den: nat, d: nat)
    requires d == ulp * den
    ensures f * (0x800 * ulp) * den == f * (0x800 * d)
  {
    MulAssoc(f, 0x800 * ulp, den);
    MulAssoc(0x800, ulp, den);
  }

  lemma StrictlyBelow(f: nat, q: nat, d: nat, num: nat)
    requires f == q / 0x800 && num < (q + 1) * d
    ensures num < (f + 1) * (0x800 * d)
  {
    SplitUnits(f, q % 0x800, d);
    TailBounds(q % 0x800, d);
  }

  /** A value below 2^1024 has an exponent the double format can hold. */
  lemma ExponentInRange(x: Xfp, num: nat, den: nat)
    requires Canonical(x) && x.exp >= 1 && den > 0
    requires Mag(x) * den <= num < DMag(INF) * den
    ensures x.exp - 0x3c01 <= 0x7fd
  {
    if x.exp - 0x3c01 > 0x7fd {
      MulCancelLt(Mag(x), DMag(INF), den);
      assert DMag(INF) == TWO52 * Pow2(0x7fe + DOUBLE_SHIFT) by { DivUnique(INF, TWO52, 0x7ff); }
      TopBinade(x.exp - 1);
      MulLe(TWO63, x.frac, Pow2(x.exp - 1));
    }
  }

  lemma TopBinade(e: nat)
    requires e >= 0x3c00 + 0x7fe
    ensures TWO63 * Pow2(e) >= TWO52 * Pow2(0x7fe + DOUBLE_SHIFT)
  {
    hide Pow2;
    var s := 0x3c00 + 0x7fe;
    Pow2Monotone(s, e);
    Pow2Add(s, 11);
    assert Pow2(11) == 0x800 by { Pow2Small(); }
    MulLe(Pow2(s), Pow2(e), TWO63);
  }

  lemma UnitsOf(x: Xfp, num: nat, den: nat)
    requires Truncates(x, num, den)
    ensures var d := Ulp(x) * den;
            x.frac * d <= num < (x.frac + 1) * d && (x.sticky <==> num != x.frac * d)
  {
    hide Pow2;
    MulAssoc(x.frac, Ulp(x), den);
    assert (Mag(x) + Ulp(x)) * den == Mag(x) * den + Ulp(x) * den;
    assert (x.frac + 1) * (Ulp(x) * den) == x.frac * (Ulp(x) * den) + Ulp(x) * den;
  }

  /** The pattern of the double just below a significand in the normal range. */
  lemma NormalNeighbours(x: Xfp)
    requires Canonical(x) && 0x3c01 <= x.exp <= 0x3c01 + 0x7fd
    ensures var f, k := x.frac / 0x800, (x.exp - 0x3c01) * TWO52 + x.frac / 0x800;
            && k < INF && k % 2 == f % 2
            && DMag(k) == f * (0x800 * Ulp(x)) && DMag(k + 1) == (f + 1) * (0x800 * Ulp(x))
  {
    hide Pow2, DMag;
    var e, f := x.exp - 0x3c01, x.frac / 0x800;
    PatternBounds(e, f, x.frac);
    Binade(e, f);
    Binade(e, f + 1);
    Spacing(x, e);
  }

  lemma PatternBounds(e: nat, f: nat, frac: nat)
    requires e <= 0x7fd && f == frac / 0x800 && TWO63 <= frac < TWO64
    ensures TWO52 <= f < 2 * TWO52 && e * TWO52 + f < INF
    ensures (e * TWO52 + f) % 2 == f % 2
  {
  }

  lemma Spacing(x: Xfp, e: nat)
    requires x.exp == e + 0x3c01
    ensures Pow2(e + DOUBLE_SHIFT) == 0x800 * Ulp(x)
  {
    hide Pow2;
    Pow2Add(x.exp - 1, 11);
    Pow2Small();
  }

  lemma NormalPack(x: Xfp)
    requires Canonical(x) && 0x3c01 <= x.exp <= 0x3c01 + 0x7fd
    ensures XfpToDfp(x, Nearest) ==
            Packed(Bit(x.sign) * TWO63 + ((x.exp - 0x3c01) * TWO52 + x.frac / 0x800 + Bit(RoundsUp(x.frac, x.sticky))),
                   When(x.frac % 0x800 != 0, Inexact))
  {
    NearestFrac(x.sign, x.frac, x.sticky);
  }

  lemma RoundNormal(x: Xfp, k: nat, num: nat, den: nat)
    requires Canonical(x) && 0x3c01 <= x.exp <= 0x3c01 + 0x7fd && den > 0
    requires Truncates(x, num, den)
    requires k == (x.exp - 0x3c01) * TWO52 + x.frac / 0x800
    ensures var r := k + Bit(RoundsUp(x.frac, x.sticky));
            NearestEven(r, num, den) && (DMag(r) * den == num <==> x.frac % 0x800 == 0 && !x.sticky)
  {
    hide DMag, Pow2;
    UnitsOf(x, num, den);
    NormalNeighbours(x);
    PackNeighbour(k, x.frac, x.sticky, Ulp(x) * den, num, den, Ulp(x));
  }

  /** Fewer, larger units: dropping `c` more bits of the significand. */
  lemma Coarsen(frac: nat, p: nat, d: nat, num: nat, sticky: bool)
    requires p > 0 && d > 0 && frac * d <= num < (frac + 1) * d && (sticky <==> num != frac * d)
    ensures var q, lost := frac / p, frac % p != 0;
            q * (p * d) <= num < (q + 1) * (p * d) && (lost || sticky <==> num != q * (p * d))
  {
    var q, r := frac / p, frac % p;
    DivModBasics(frac, p);
    assert frac * d == q * (p * d) + r * d by { MulAssoc(q, p, d); }
    assert (frac + 1) * d == frac * d + d;
    assert (q + 1) * (p * d) == q * (p * d) + p * d;
    MulLe(r + 1, p, d);
    assert (r + 1) * d == r * d + d;
    if r > 0 { MulLe(1, r, d); }
  }

  lemma SubnormalNeighbours(q: nat, ulp: nat)
    requires q < TWO63 && Pow2(DOUBLE_SHIFT) == 0x800 * ulp
    ensures var f := q / 0x800;
            f < INF && DMag(f) == f * (0x800 * ulp) && DMag(f + 1) == (f + 1) * (0x800 * ulp)
  {
    Subnormals(q / 0x800);
    Subnormals(q / 0x800 + 1);
  }

  lemma SubnormalPack(x: Xfp, q: nat, lost: bool)
    requires Canonical(x) && 1 <= x.exp < 0x3c01
    requires q == Shr(x.frac, 0x3c01 - x.exp) && lost == (x.frac % Pow2(0x3c01 - x.exp) != 0)
    ensures var inexact := q % 0x800 != 0 || lost;
            XfpToDfp(x, Nearest) ==
            Packed(Bit(x.sign) * TWO63 + (q / 0x800 + Bit(RoundsUp(q, lost || x.sticky))),
                   When(inexact, Underflow) + When(inexact, Inexact))
  {
    JamSpec(x.frac, 0x3c01 - x.exp);
    JamKeepsDecision(q, lost, x.sticky);
    NearestFrac(x.sign, ShiftRight64Jamming(x.frac, 0x3c01 - x.exp), x.sticky);
  }

  lemma SubnormalSpacing(x: Xfp, c: nat)
    requires Canonical(x) && 1 <= x.exp && c == 0x3c01 - x.exp
    ensures Pow2(DOUBLE_SHIFT) == 0x800 * (Pow2(c) * Ulp(x))
  {
    hide Pow2;
    Pow2Add(c, x.exp - 1);
    Pow2Add(c + (x.exp - 1), 11);
    Pow2Small();
  }

  lemma RoundSubnormal(x: Xfp, q: nat, lost: bool, num: nat, den: nat)
    requires Canonical(x) && 1 <= x.exp < 0x3c01 && den > 0
    requires Truncates(x, num, den)
    requires q == Shr(x.frac, 0x3c01 - x.exp) && lost == (x.frac % Pow2(0x3c01 - x.exp) != 0)
    ensures var r := q / 0x800 + Bit(RoundsUp(q, lost || x.sticky));
            NearestEven(r, num, den) && (DMag(r) * den == num <==> q % 0x800 == 0 && !lost && !x.sticky)
  {
    hide DMag, Pow2;
    var c := 0x3c01 - x.exp;
    var p, u := Pow2(c), Ulp(x);
    UnitsOf(x, num, den);
    MulLt(0, u, den);
    MulLt(0, u, p);
    Coarsen(x.frac, p, u * den, num, x.sticky);
    MulAssoc(p, u, den);
    SubnormalSpacing(x, c);
    Pow2Strict(0, c);
    HalfBound(x.frac, p);
    SubnormalNeighbours(q, p * u);
    PackNeighbour(q / 0x800, q, lost || x.sticky, p * u * den, num, den, p * u);
  }

  /** An extended subnormal is far below half the smallest double. */
  lemma RoundTiny(x: Xfp, num: nat, den: nat)
    requires Canonical(x) && x.exp == 0 && den > 0 && Truncates(x, num, den)
    ensures NearestEven(0, num, den) && (DMag(0) * den != num <==> x.sticky || x.frac != 0)
  {
    hide Pow2, DMag;
    assert Ulp(x) == 1 by { Pow2Small(); }
    assert Mag(x) == x.frac;
    Subnormals(0);
    Subnormals(1);
    assert 2 * TWO64 <= DMag(1) by { Pow2Strict(64, DOUBLE_SHIFT); Pow2Words(); }
    TinyBound(x.frac, num, den, DMag(1));
    NearestOfNeighbours(0, num, den, false);
  }

  lemma TinyBound(frac: nat, num: nat, den: nat, top: nat)
    requires frac < TWO63 && num < (frac + 1) * den && 2 * TWO64 <= top && den > 0
    ensures 2 * num < top * den
  {
    MulLe(frac + 1, TWO64, den);
    MulLe(2 * TWO64, top, den);
  }

  /** Anything below the smallest normal extended number rounds to the zero double. */
  lemma TinyNearest(num: nat, den: nat)
    requires den > 0 && num < TWO63 * den
    ensures NearestEven(0, num, den) && DMag(0) * den == 0
  {
    hide Pow2, DMag;
    Subnormals(0);
    Subnormals(1);
    assert 2 * TWO64 <= DMag(1) by { Pow2Strict(64, DOUBLE_SHIFT); Pow2Words(); }
    MulLe(TWO63, TWO64, den);
    TinyBound(TWO63 - 1, num, den, DMag(1));
    NearestOfNeighbours(0, num, den, false);
  }

  lemma TinyPack(x: Xfp)
    requires Canonical(x) && x.exp == 0
    ensures XfpToDfp(x, Nearest) ==
            Packed(Bit(x.sign) * TWO63, When(x.frac != 0, Underflow) + When(x.frac != 0, Inexact))
  {
  }

  /**
   No double rounding: converting a truncated result to double in the nearest mode gives the
   correctly rounded exact value, because the sticky flag restores what was cut off.  The two
   steps together report Inexact iff the double differs from the exact value.
   */
  lemma SingleRounding(x: Xfp, num: nat, den: nat)
    requires Canonical(x) && den > 0
    requires Truncates(x, num, den) && num < DMag(INF) * den
    ensures var p := XfpToDfp(x, Nearest);
            var k := p.value - Bit(x.sign) * TWO63;
            && 0 <= k && NearestEven(k, num, den)
            && Overflow !in p.raised
            && (x.sticky || Inexact in p.raised <==> DMag(k) * den != num)
  {
    hide XfpToDfp, DMag, RoundsUp, Pow2;
    var k := XfpToDfp(x, Nearest).value - Bit(x.sign) * TWO63;
    if x.exp == 0 {
      TinyPack(x);
      RoundTiny(x, num, den);
    } else {
      ExponentInRange(x, num, den);
      if x.exp >= 0x3c01 {
        NormalPack(x);
        var lo := (x.exp - 0x3c01) * TWO52 + x.frac / 0x800;
        assert k == lo + Bit(RoundsUp(x.frac, x.sticky));
        RoundNormal(x, lo, num, den);
      } else {
        var q, lost := Shr(x.frac, 0x3c01 - x.exp), x.frac % Pow2(0x3c01 - x.exp) != 0;
        SubnormalPack(x, q, lost);
        assert k == q / 0x800 + Bit(RoundsUp(q, lost || x.sticky));
        RoundSubnormal(x, q, lost, num, den);
      }
    }
  }

  // ------------------------------------------------------------ widening and back

  /** A magnitude from 2^1024 on has an exponent the double format cannot hold. */
  lemma ExponentTooLarge(x: Xfp, num: nat, den: nat)
    requires Canonical(x) && den > 0 && Truncates(x, num, den) && num >= DMag(INF) * den
    ensures x.exp - 0x3c01 > 0x7fd
  {
    hide Pow2, Mag, DMag;
    if x.exp - 0x3c01 <= 0x7fd {
      NextUnit(x);
      BelowTop(x);
      MulLe(Mag(x) + Ulp(x), DMag(INF), den);
    }
  }

  lemma NextUnit(x: Xfp)
    ensures Mag(x) + Ulp(x) == (x.frac + 1) * Ulp(x)
  {
    hide Pow2;
  }

  lemma BelowTop(x: Xfp)
    requires Canonical(x) && x.exp - 0x3c01 <= 0x7fd
    ensures (x.frac + 1) * Ulp(x) <= DMag(INF)
  {
    hide Pow2, DMag;
    var s := 0x3c01 + 0x7fd - 1;
    Pow2Monotone(ScaleExp(x) - 1, s);
    MulLe(x.frac + 1, TWO64, Ulp(x));
    MulLe(Ulp(x), Pow2(s), TWO64);
    TopPattern();
  }

  lemma TopPattern()
    ensures TWO64 * Pow2(0x3c01 + 0x7fd - 1) == DMag(INF)
  {
    hide Pow2, DMag;
    Binade(0x7fe, TWO52);
    assert INF == 0x7fe * TWO52 + TWO52;
    Pow2Add(0x3c01 + 0x7fd - 1, 12);
    assert Pow2(12) == 0x1000 by { TwelveBits(); }
  }

  lemma TwelveBits()
    ensures Pow2(12) == 0x1000
  {
    hide Pow2;
    Pow2Add(11, 1);
    Pow2Small();
  }

  /**
   Beyond the double range: in the nearest mode the code stores the largest finite double, not
   infinity, and raises overflow, exactly from 2^1024 on. A value just below that rounds up to
   infinity without overflow.
   */
  lemma OverflowExactly(x: Xfp, num: nat, den: nat)
    requires Canonical(x) && den > 0 && Truncates(x, num, den)
    ensures Overflow in XfpToDfp(x, Nearest).raised <==> num >= DMag(INF) * den
    ensures num >= DMag(INF) * den ==>
              XfpToDfp(x, Nearest) == Packed(Bit(x.sign) * TWO63 + INF - 1, {Overflow, Inexact})
  {
    hide Pow2, Mag, DMag, Truncates, NearestEven;
    if num >= DMag(INF) * den {
      ExponentTooLarge(x, num, den);
    } else {
      SingleRounding(x, num, den);
    }
  }

  predicate FiniteDfp(val: U64) {
    (val / TWO52) % 0x800 != 0x7ff
  }

  /** Eleven zero bits are dropped without rounding in every mode. */
  lemma ExactFrac(sign: bool, f: nat, rm: RoundMode)
    requires f < 2 * TWO52
    ensures RoundFrac(sign, f * 0x800, false, rm) == f
  {
    DivUnique(f * 0x800, 0x800, f);
    var inc := DirectedIncrement(sign, rm);
    DivUnique(f * 0x800 + inc, TWO64, 0);
    DivUnique(f * 0x800 + inc, 0x800, f);
  }

  /** Converting a normal double back: exponent and fraction fields reappear. */
  lemma NarrowNormal(sign: bool, e: nat, f: nat, rm: RoundMode)
    requires 1 <= e <= 0x7fe && f < TWO52
    ensures XfpToDfp(Xfp(sign, e + 0x3c00, TWO63 + f * 0x800, false), rm) == Packed(PackDfp(sign, e, f), {})
  {
    ExactFrac(sign, TWO52 + f, rm);
    DivUnique((TWO52 + f) * 0x800, 0x800, TWO52 + f);
  }

  /** Converting a subnormal double back: the right shift undoes the normalizing shift. */
  lemma NarrowSubnormal(sign: bool, f: nat, s: nat, rm: RoundMode)
    requires 1 <= s <= 52 && f < TWO52 && TWO63 <= f * 0x800 * Pow2(s) < TWO64
    ensures XfpToDfp(Xfp(sign, 0x3c01 - s, f * 0x800 * Pow2(s), false), rm) == Packed(PackDfp(sign, 0, f), {})
  {
    hide Pow2;
    var frac := f * 0x800 * Pow2(s);
    DivUnique(frac, Pow2(s), f * 0x800);
    JamSpec(frac, s);
    assert ShiftRight64Jamming(frac, s) == f * 0x800;
    DivUnique(f * 0x800, 0x800, f);
    ExactFrac(sign, f, rm);
  }

  /** The magnitude of a normalized subnormal double. */
  lemma SubnormalMag(f: nat, s: nat)
    requires s < 0x3c00 && f < TWO52
    ensures f * 0x800 * Pow2(s) * Pow2(0x3c01 - s - 1) == DMag(f)
  {
    hide Pow2;
    Pow2Add(s, 0x3c00 - s);
    Pow2Add(11, 0x3c00);
    Pow2Small();
    MulAssoc(f * 0x800, Pow2(s), Pow2(0x3c00 - s));
    MulAssoc(f, 0x800, Pow2(0x3c00));
  }

  lemma NormalMag(e: nat, f: nat)
    requires 1 <= e && f < TWO52
    ensures (TWO63 + f * 0x800) * Pow2(e + 0x3c00 - 1) == DMag(e * TWO52 + f)
  {
    hide Pow2, DMag;
    Binade(e - 1, TWO52 + f);
    assert (e - 1) * TWO52 + (TWO52 + f) == e * TWO52 + f;
    Pow2Add(11, e + 0x3c00 - 1);
    Pow2Small();
    MulAssoc(TWO52 + f, 0x800, Pow2(e + 0x3c00 - 1));
  }

  /** The shift that brings a subnormal fraction to the top of the word. */
  lemma NormalizingShift(f: nat, lz: nat)
    requires 0 < f < TWO52 && IsLeadingZeros(f, lz)
    ensures 12 <= lz <= 63 && Pow2(lz) == 0x800 * Pow2(lz - 11)
    ensures f * Pow2(lz) == f * 0x800 * Pow2(lz - 11)
  {
    hide Pow2;
    if lz < 12 {
      Pow2Monotone(lz, 11);
      Pow2Small();
      MulLe(Pow2(lz), Pow2(11), f);
    }
    Pow2Add(11, lz - 11);
    Pow2Small();
    MulAssoc(f, 0x800, Pow2(lz - 11));
  }

  /**
   Every finite double widens exactly, and converting it back gives the same bits in every
   rounding mode without raising anything (section 5.3 of IEEE 754-1985).
   */
  method DfpToXfp(val: U64) returns (x: Xfp)
    requires FiniteDfp(val)
    ensures Canonical(x) && !x.sticky && x.sign == Negative(val)
    ensures Mag(x) == DMag(val % TWO63)
    ensures forall rm :: XfpToDfp(x, rm) == Packed(val, {})
  {
    hide Pow2, DMag, XfpToDfp;
    var sign := Negative(val);
    var exp, frac := (val / TWO52) % 0x800, val % TWO52;
    DfpFields(val);
    if exp == 0 {
      if frac == 0 {
        x := Xfp(sign, 0, 0, false);
        forall rm ensures XfpToDfp(x, rm) == Packed(val, {}) { NarrowZero(sign, rm); }
        ZeroMag(x);
        return;
      }
      var lz := LeadingZeros64(frac);
      NormalizingShift(frac, lz);
      var s := lz - 11;
      x := Xfp(sign, 0x3c00 + 1 - s, Shl64(Shl64(frac, s), 11), false);
      assert x.frac == frac * 0x800 * Pow2(s) by { NestedShift(frac, s); }
      SubnormalMag(frac, s);
      forall rm ensures XfpToDfp(x, rm) == Packed(val, {}) { NarrowSubnormal(sign, frac, s, rm); }
    } else {
      x := Xfp(sign, exp + 0x3c00, TWO63 + frac * 0x800, false);
      NormalMag(exp, frac);
      forall rm ensures XfpToDfp(x, rm) == Packed(val, {}) { NarrowNormal(sign, exp, frac, rm); }
    }
  }

  lemma DfpFields(val: U64)
    ensures val == PackDfp(Negative(val), (val / TWO52) % 0x800, val % TWO52)
    ensures val % TWO63 == ((val / TWO52) % 0x800) * TWO52 + val % TWO52
  {
    var h, f := val / TWO52, val % TWO52;
    DivModBasics(val, TWO52);
    if h < 0x800 { DivUnique(h, 0x800, 0); } else { DivUnique(h, 0x800, 1); }
    DivUnique(val, TWO63, Bit(Negative(val)));
  }

  lemma NarrowZero(sign: bool, rm: RoundMode)
    ensures XfpToDfp(Xfp(sign, 0, 0, false), rm) == Packed(PackDfp(sign, 0, 0), {})
  {
    ExactFrac(sign, 0, rm);
  }

  lemma ZeroMag(x: Xfp)
    requires IsZero(x)
    ensures Mag(x) == DMag(0) == 0
  {
  }

  lemma NestedShift(f: nat, s: nat)
    requires f * 0x800 * Pow2(s) < TWO64 && f < TWO52
    ensures Shl64(Shl64(f, s), 11) == f * 0x800 * Pow2(s)
  {
    hide Pow2;
    assert f * 0x800 * Pow2(s) == f * Pow2(s) * 0x800;
    DivUnique(f * Pow2(s), TWO64, 0);
    Pow2Small();
    DivUnique(f * Pow2(s) * 0x800, TWO64, 0);
  }
}
