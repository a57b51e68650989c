/**
 The IEEE remainder of finite extended values: a - n*b with n the integer nearest a/b, ties
 to even (section 5.1 of IEEE 754-1985), computed exactly.
 */
module Remainder {
  import opened Powers
  import opened Words128
  import opened Shifts
  import opened EstimateDiv
  import opened Xfp
  import opened RoundPack
  import opened AddSub
  import opened MulDiv

  // ------------------------------------------------------------ partial remainders

  /** A quotient estimate lowered by two: never above the true quotient, at most two below. */
  function Lowered(q: U64): (r: U64) {
    if 2 < q then q - 2 else 0
  }

  lemma LoweredBounds(v: nat, b: nat, q: U64)
    requires b > 0 && v / b <= q <= v / b + 2
    ensures Lowered(q) <= v / b <= Lowered(q) + 2
    ensures Lowered(q) * b <= v < Lowered(q) * b + 3 * b
  {
    var t, r := v / b, Lowered(q);
    DivModBasics(v, b);
    MulLe(r, t, b);
    MulLe(t, r + 2, b);
    assert (r + 2) * b == r * b + 2 * b;
  }

  /**
   The pair `v` at distance `e` represents the dividend `n` modulo even multiples of the
   divisor: n = v * 2^e + 2*m*b, scaled to integers when e is negative.
   */
  ghost predicate Rep(n: nat, b: nat, v: nat, e: int, m: nat) {
    if e >= 0 then n == v * Pow2(e) + 2 * (m * b)
    else n * Pow2(-e) == v + 2 * (m * b) * Pow2(-e)
  }

  /** Taking q*b off and moving 62 places keeps the representation: q*b*2^e is an even multiple. */
  lemma RepStep(n: nat, b: nat, v: nat, e: int, m: nat, q: nat, x: nat)
    requires e > 0 && Rep(n, b, v, e, m) && v == x + q * b
    ensures Rep(n, b, x * Pow2(62), e - 62, m + q * Pow2(e - 1))
  {
    hide Pow2;
    var m1 := m + q * Pow2(e - 1);
    assert Pow2(e) == 2 * Pow2(e - 1) by { Pow2Add(1, e - 1); Pow2Small(); }
    assert n == x * Pow2(e) + 2 * (m1 * b) by { EvenMultiple(x, q, b, Pow2(e - 1), m); }
    if e >= 62 {
      Pow2Add(62, e - 62);
      MulAssoc(x, Pow2(62), Pow2(e - 62));
    } else {
      Pow2Add(e, 62 - e);
      var f := Pow2(62 - e);
      assert n * f == x * Pow2(e) * f + 2 * (m1 * b) * f;
      MulAssoc(x, Pow2(e), f);
    }
  }

  lemma EvenMultiple(x: int, q: int, b: int, h: int, m: int)
    ensures (x + q * b) * (2 * h) + 2 * (m * b) == x * (2 * h) + 2 * ((m + q * h) * b)
  {
    calc {
      (x + q * b) * (2 * h);
      x * (2 * h) + (q * b) * (2 * h);
      { assert (q * b) * (2 * h) == 2 * ((q * b) * h); Swap(q, b, h); }
      x * (2 * h) + 2 * (q * h * b);
    }
  }

  /** One step of the reduction loop: 62 more bits of quotient are consumed. */
  method ReduceStep(a0: U64, a1: U64, b: U64) returns (r0: U64, r1: U64, ghost q: nat)
    requires TWO63 <= b && a0 < b
    ensures r0 < b && q * b <= Val(a0, a1)
    ensures Val(r0, r1) == (Val(a0, a1) - q * b) * Pow2(62)
  {
    hide Pow2;
    ghost var v := Val(a0, a1);
    var z := EstimateDiv128To64(a0, a1, b);
    LoweredBounds(v, b, z);
    z := Lowered(z);
    q := z;
    var t0, t1 := Mul64To128(b, z);
    r0, r1 := Sub128(a0, a1, t0, t1);
    ghost var x := v - q * b;
    DivUnique(x, TWO128, 0);
    assert Pow2(62) == 0x4000_0000_0000_0000 by { Pow2Words(); }
    r0, r1 := ShortShiftLeft128(r0, r1, 62);
    QuarterBound(r0, r1, x, b);
  }

  lemma QuarterBound(r0: U64, r1: U64, x: nat, b: nat)
    requires Val(r0, r1) == x * 0x4000_0000_0000_0000 && x < 3 * b
    ensures r0 < b
  {
  }

  /** The reduction loop: it keeps the high word below the divisor and ends within 62 places. */
  method ReduceLoop(a0: U64, a1: U64, b: U64, e0: int, ghost n: nat, ghost m0: nat)
    returns (r0: U64, r1: U64, e: int, ghost m: nat)
    requires TWO63 <= b && a0 < b && e0 >= -64
    requires e0 > 0 ==> Rep(n, b, Val(a0, a1), e0, m0)
    ensures r0 < b && -64 <= e <= 0
    ensures e0 <= 0 ==> e == e0 && r0 == a0 && r1 == a1 && m == m0
    ensures e0 > 0 ==> e > -62 && Rep(n, b, Val(r0, r1), e, m)
  {
    hide Pow2, Rep, Val;
    r0, r1, e, m := a0, a1, e0, m0;
    while 0 < e
      invariant r0 < b
      invariant if e0 <= 0 then e == e0 && r0 == a0 && r1 == a1 && m == m0 else e > -62 && Rep(n, b, Val(r0, r1), e, m)
      decreases e
    {
      var s0, s1, q := ReduceStep(r0, r1, b);
      RepStep(n, b, Val(r0, r1), e, m, q, Val(r0, r1) - q * b);
      m := m + q * Pow2(e - 1);
      r0, r1, e := s0, s1, e - 62;
    }
  }

  // ------------------------------------------------------------ the last quotient bits

  /**
   The last `count` quotient bits: subtract multiples of the divisor, shifted to the
   remaining distance, until less than one is left.
   */
  method LastQuotient(a0: U64, a1: U64, b: U64, count: nat)
    returns (q: U64, r0: U64, r1: U64, t0: U64, t1: U64)
    requires TWO63 <= b && a0 < b && 0 < count <= 64
    ensures Val(t0, t1) == b * Pow2(64 - count)
    ensures Val(r0, r1) < Val(t0, t1) && Val(a0, a1) == q * Val(t0, t1) + Val(r0, r1)
  {
    hide Pow2;
    ghost var v := Val(a0, a1);
    var s := 64 - count;
    q := EstimateDiv128To64(a0, a1, b);
    LoweredBounds(v, b, q);
    q := Lowered(q);
    ShiftedDivisor(b, s);
    var low := q;
    q := Shr(q, s);
    RoundedDown(low, s);
    var p0, p1 := Mul64To128(b, Shl64(q, s));
    assert Val(p0, p1) == q * (b * Pow2(s)) <= v by { DownProduct(b, q, Pow2(s), low, v); }
    r0, r1 := Sub128(a0, a1, p0, p1);
    DivUnique(v - q * (b * Pow2(s)), TWO128, 0);
    t0, t1 := ShortShiftLeft128(0, b, s);
    while Le128(t0, t1, r0, r1)
      invariant Val(t0, t1) == b * Pow2(s)
      invariant v == q * Val(t0, t1) + Val(r0, r1)
      decreases Val(r0, r1)
    {
      QuotientFits(v, q, Val(t0, t1), Val(r0, r1), b);
      var x0, x1 := Sub128(r0, r1, t0, t1);
      DivUnique(Val(r0, r1) - Val(t0, t1), TWO128, 0);
      r0, r1 := x0, x1;
      q := q + 1;
    }
  }

  lemma ShiftedDivisor(b: U64, s: nat)
    requires TWO63 <= b && s < 64
    ensures b <= b * Pow2(s) < TWO128 && Val(0, b) == b
  {
    hide Pow2;
    MulLe(1, Pow2(s), b);
    assert Pow2(s) <= TWO63 by { Pow2Monotone(s, 63); Pow2Words(); }
    MulLe(Pow2(s), TWO63, b);
  }

  lemma RoundedDown(low: U64, s: nat)
    ensures Shl64(Shr(low, s), s) == Shr(low, s) * Pow2(s) <= low
  {
    hide Pow2;
    DivModBasics(low, Pow2(s));
    DivUnique(Shr(low, s) * Pow2(s), TWO64, 0);
  }

  lemma DownProduct(b: nat, q: nat, p: nat, low: nat, v: nat)
    requires q * p <= low && low * b <= v
    ensures b * (q * p) == q * (b * p) <= v
  {
    MulLe(q * p, low, b);
    Pairwise(b, 1, q, p);
    MulAssoc(q, b, p);
    MulAssoc(b, q, p);
  }

  /** As long as a whole divisor is left, the quotient is below its bound. */
  lemma QuotientFits(v: nat, q: U64, t: nat, r: nat, b: U64)
    requires v == q * t + r && t <= r && b <= t && v < b * TWO64
    ensures q + 1 < TWO64 && v == (q + 1) * t + (r - t) && t > 0
  {
    assert (q + 1) * t == q * t + t;
    if q + 1 >= TWO64 {
      MulLe(TWO64, q + 1, t);
      MulLe(b, t, TWO64);
    }
  }

  // ------------------------------------------------------------ the whole quotient

  /**
   Quotient and remainder of significands at exponent distance `d`, in 2^s-ths of the
   divisor's unit: a * 2^(d+s) = total * (b * 2^s) + v.
   */
  ghost predicate Divides(a: nat, b: nat, d: int, s: nat, total: nat, v: nat) {
    && d + s >= 0
    && a * Pow2(d + s) == total * (b * Pow2(s)) + v
    && v < b * Pow2(s)
  }

  lemma InitialRep(a: nat, b: nat, d: nat, q: nat)
    requires d > 0 && q * b <= a
    ensures Rep(a * Pow2(d), b, (a - q * b) * TWO64, d - 64, q * Pow2(d - 1))
  {
    hide Pow2;
    var v, m := (a - q * b) * TWO64, q * Pow2(d - 1);
    assert Pow2(d) == 2 * Pow2(d - 1) by { Pow2Add(1, d - 1); Pow2Small(); }
    assert Pow2(64) == TWO64 by { Pow2Words(); }
    if d >= 64 {
      var p := Pow2(d - 64);
      Pow2Add(64, d - 64);
      MulAssoc(a - q * b, TWO64, p);
      EvenMultiple(a - q * b, q, b, Pow2(d - 1), 0);
    } else {
      var p := Pow2(64 - d);
      Pow2Add(d, 64 - d);
      MulAssoc(a, Pow2(d), p);
      TailMultiple(q, b, Pow2(d - 1), p);
    }
  }

  lemma TailMultiple(q: int, b: int, h: int, p: int)
    requires 2 * h * p == TWO64
    ensures 2 * (q * h * b) * p == q * b * TWO64
  {
    calc {
      2 * (q * h * b) * p;
      { Swap(q, h, b); }
      2 * (q * b * h) * p;
      { MulAssoc(2, q * b, h); Swap(2, q * b, h); }
      (2 * h) * (q * b) * p;
      { Swap(2 * h, q * b, p); }
      (2 * h * p) * (q * b);
    }
  }

  /** The last quotient bits complete the total; its even part does not change the parity. */
  lemma CompleteQuotient(a: nat, b: nat, d: nat, v: nat, e: int, m: nat, q: nat, r: nat)
    requires e <= 0 && Rep(a * Pow2(d), b, v, e, m)
    requires v == q * (b * Pow2(-e)) + r && r < b * Pow2(-e)
    ensures Divides(a, b, d, -e, 2 * m + q, r)
  {
    hide Pow2;
    var s := Pow2(-e);
    assert Pow2(0) == 1 by { Pow2Small(); }
    Pow2Add(d, -e);
    MulAssoc(a, Pow2(d), s);
    assert a * Pow2(d) * s == v + 2 * (m * b) * s;
    assert (2 * m + q) * (b * s) == 2 * (m * b) * s + q * (b * s) by { MulAssoc(m, b, s); }
  }

  /** Align the dividend with the divisor and take off the leading quotient bit. */
  method FirstQuotientBit(fa: U64, fb: U64, d: int) returns (q: U64, a0: U64, a1: U64)
    requires fa >= TWO63 && fb >= TWO63 && d >= -1
    ensures a0 < fb && q <= 1
    ensures d >= 0 ==> q * fb <= fa && Val(a0, a1) == (fa - q * fb) * TWO64
    ensures d <= 0 ==> Divides(fa, fb, d, 64, q, Val(a0, a1))
  {
    hide Pow2, Divides;
    a0, a1 := fa, 0;
    if d < 0 {
      a0, a1 := ShiftRight128(fa, 0, 1);
      assert Val(fa, 0) / Pow2(1) == fa * TWO63 by { Pow2Small(); }
    }
    q := Bit(fb <= a0);
    if fb <= a0 {
      a0 := a0 - fb;
    }
    if d >= 0 { FirstBit(fa, fb, q); }
    if d <= 0 { NoDistance(fa, fb, d, q, Val(a0, a1)); }
  }

  /**
   The total quotient and the partial remainder.  `q` carries the parity of the total, which
   is all that later rounding needs.
   */
  method DivideDown(fa: U64, fb: U64, d: int)
    returns (q: U64, r0: U64, r1: U64, t0: U64, t1: U64, count: nat, ghost total: nat)
    requires fa >= TWO63 && fb >= TWO63 && d >= -1
    ensures count <= 64 && Val(t0, t1) == fb * Pow2(64 - count) && q % 2 == total % 2
    ensures Divides(fa, fb, d, 64 - count, total, Val(r0, r1))
    ensures d < 0 ==> count == 0
  {
    hide Pow2, Rep, Divides, Val;
    var a0, a1;
    q, a0, a1 := FirstQuotientBit(fa, fb, d);
    total := q;
    ghost var n, m := 0, 0;
    if d > 0 {
      n, m := fa * Pow2(d), q * Pow2(d - 1);
      InitialRep(fa, fb, d, q);
    }
    var e;
    r0, r1, e, m := ReduceLoop(a0, a1, fb, if d < 0 then -64 else d - 64, n, m);
    count := e + 64;
    if 0 < count {
      var w0, w1 := r0, r1;
      q, r0, r1, t0, t1 := LastQuotient(w0, w1, fb, count);
      CompleteQuotient(fa, fb, d, Val(w0, w1), e, m, q, Val(r0, r1));
      total := 2 * m + q;
    } else {
      t0, t1 := fb, 0;
      WholeWord(fb);
    }
  }

  lemma WholeWord(b: U64)
    ensures Val(b, 0) == b * Pow2(64)
  {
    Pow2Words();
  }

  lemma FirstBit(fa: U64, fb: U64, q: nat)
    requires q == Bit(fb <= fa)
    ensures q * fb <= fa && (fa - q * fb) * TWO64 == Val(if fb <= fa then fa - fb else fa, 0)
  {
  }

  lemma NoDistance(fa: U64, fb: U64, d: int, q: nat, v: nat)
    requires TWO63 <= fa && TWO63 <= fb && -1 <= d <= 0
    requires d == 0 ==> q == Bit(fb <= fa) && v == (fa - q * fb) * TWO64
    requires d < 0 ==> q == 0 && v == fa * TWO63
    ensures Divides(fa, fb, d, 64, q, v)
  {
    hide Pow2;
    assert Pow2(64) == TWO64 && Pow2(63) == TWO63 by { Pow2Words(); }
  }

  // ------------------------------------------------------------ rounding the quotient

  /** The magnitude left after choosing the nearest quotient, ties to even. */
  ghost predicate NearestQuotient(total: nat, odd: bool, t: nat, v: nat, n: nat, w: nat, flip: bool) {
    && (flip <==> t - v < v || (t - v == v && odd))
    && n == (if flip then total + 1 else total)
    && w == (if flip then t - v else v)
  }

  lemma NearestBounds(total: nat, t: nat, v: nat, n: nat, w: nat, flip: bool)
    requires v < t && NearestQuotient(total, total % 2 == 1, t, v, n, w, flip)
    ensures 2 * w <= t && (2 * w == t ==> n % 2 == 0)
    ensures total * t + v == n * t + (if flip then -(w as int) else w)
  {
    assert (total + 1) * t == total * t + t;
  }

  /** The remainder in the operands' common unit. */
  lemma RemainderMag(a: Xfp, b: Xfp, na: nat, nb: nat, fa: nat, fb: nat, d: int, s: nat, n: nat, w: nat, flip: bool)
    requires Mag(a) * Pow2(na) == fa * Ulp(a) && Mag(b) * Pow2(nb) == fb * Ulp(b)
    requires d == ScaleExp(a) - na - (ScaleExp(b) - nb) && d + s >= 0
    requires fa * Pow2(d + s) == n * (fb * Pow2(s)) + (if flip then -(w as int) else w)
    ensures var r := (Mag(a) - n * Mag(b)) * (if flip then -1 else 1);
            r * Pow2(s + nb) == w * Ulp(b)
    ensures Mag(b) * Pow2(s + nb) == fb * Pow2(s) * Ulp(b)
  {
    hide Pow2, Mag;
    var c, z := Pow2(s + nb), Ulp(b);
    assert Mag(b) * c == fb * Pow2(s) * z by {
      Pow2Add(nb, s);
      MulAssoc(Mag(b), Pow2(nb), Pow2(s));
      Swap(fb, z, Pow2(s));
    }
    assert Mag(a) * c == fa * Pow2(d + s) * z by { DividendScale(a, b, na, nb, fa, d, s); }
    Combine(Mag(a), Mag(b), n, c, fa * Pow2(d + s), fb * Pow2(s), z, w, flip);
  }

  lemma DividendScale(a: Xfp, b: Xfp, na: nat, nb: nat, fa: nat, d: int, s: nat)
    requires Mag(a) * Pow2(na) == fa * Ulp(a)
    requires d == ScaleExp(a) - na - (ScaleExp(b) - nb) && d + s >= 0
    ensures Mag(a) * Pow2(s + nb) == fa * Pow2(d + s) * Ulp(b)
  {
    hide Pow2, Mag;
    var x, y := Mag(a) * Pow2(s + nb), fa * Pow2(d + s) * Ulp(b);
    Pow2Add(ScaleExp(a) - 1, s + nb);
    Pow2Add(d + s, ScaleExp(b) - 1);
    Pow2Add(d + s + ScaleExp(b) - 1, na);
    assert x * Pow2(na) == fa * (Ulp(a) * Pow2(s + nb)) by {
      Swap(Mag(a), Pow2(s + nb), Pow2(na));
      MulAssoc(fa, Ulp(a), Pow2(s + nb));
    }
    assert y * Pow2(na) == fa * (Pow2(d + s) * Ulp(b) * Pow2(na)) by {
      MulAssoc(fa, Pow2(d + s), Ulp(b));
      MulAssoc(fa, Pow2(d + s) * Ulp(b), Pow2(na));
    }
    CancelFactor(x, y, Pow2(na));
  }

  lemma Combine(ma: int, mb: int, n: int, c: int, y: int, t: int, z: int, w: int, flip: bool)
    requires ma * c == y * z && mb * c == t * z && y == n * t + (if flip then -w else w)
    ensures (ma - n * mb) * (if flip then -1 else 1) * c == w * z
  {
    assert (ma - n * mb) * c == ma * c - n * (mb * c) by { MulAssoc(n, mb, c); }
    assert y * z == n * (t * z) + (if flip then -w else w) * z by { MulAssoc(n, t, z); }
  }

  /** Halves compare alike in both units. */
  lemma SameHalf(num: nat, mb: nat, c: nat, w: nat, t: nat, z: nat)
    requires c > 0 && z > 0 && num * c == w * z && mb * c == t * z && 2 * w <= t
    ensures 2 * num <= mb && (2 * num == mb <==> 2 * w == t)
  {
    assert 2 * num * c == 2 * (num * c) && 2 * w * z == 2 * (w * z);
    MulLe(2 * w, t, z);
    MulCancelLe(2 * num, mb, c);
    if 2 * num == mb { CancelFactor(2 * w, t, z); }
    if 2 * w == t { CancelFactor(2 * num, mb, c); }
  }

  // ------------------------------------------------------------ packing exactly

  /** A remainder of at most half the divisor normalizes by more than 64 - s places. */
  lemma NormalizesFar(w: nat, k: nat, fb: U64, s: nat)
    requires 2 * w <= fb * Pow2(s) && TWO63 * TWO64 <= w * Pow2(k)
    ensures k + s > 64
  {
    hide Pow2;
    if k + s <= 64 {
      Pow2Add(s, k);
      assert Pow2(s + k) <= TWO64 by { Pow2Monotone(s + k, 64); Pow2Words(); }
      MulLe(2 * w, fb * Pow2(s), Pow2(k));
      assert 2 * w * Pow2(k) == 2 * (w * Pow2(k));
      MulAssoc(fb, Pow2(s), Pow2(k));
      MulLe(Pow2(s + k), TWO64, fb);
    }
  }

  /** The remainder is a multiple of the smaller operand's unit, so nothing is left below 64 bits. */
  lemma LowWordEmpty(w: nat, k: nat, x: nat, j: nat)
    requires w == x * Pow2(j) && j + k >= 64
    ensures (w * Pow2(k)) % TWO64 == 0
  {
    hide Pow2;
    Pow2Add(j, k);
    Pow2Add(j + k - 64, 64);
    assert Pow2(64) == TWO64 by { Pow2Words(); }
    var y := x * Pow2(j + k - 64);
    assert w * Pow2(k) == y * TWO64 by {
      MulAssoc(x, Pow2(j), Pow2(k));
      MulAssoc(x, Pow2(j + k - 64), TWO64);
    }
    DivUnique(w * Pow2(k), TWO64, y);
  }

  lemma ExactRemainder(sign: bool, w: nat, k: nat, s: nat, t: nat, rm: RoundMode, num: nat)
    requires num * TWO64 * Pow2(s) == w * Pow2(t)
    requires TWO63 * TWO64 <= w * Pow2(k) < TWO128 && (w * Pow2(k)) % TWO64 == 0
    requires k <= 128 && -0x7000 <= 1 + t - s <= 0x7ffe + k
    ensures var p := RoundPackXfp(sign, 1 + t - s - k, w * Pow2(k) / TWO64, 0, rm);
            Canonical(p.value) && p.value.sign == sign && Mag(p.value) == num && p.raised == {}
  {
    hide Pow2, Mag;
    ExactPair(sign, w, k, s, t, rm, num);
  }

  lemma ZeroPack(sign: bool, e: int, rm: RoundMode)
    requires -0x7ffe <= e <= 0x7ffe
    ensures RoundPackXfp(sign, e, 0, 0, rm) == Packed(Xfp(sign, 0, 0, false), {})
  {
    hide Pow2, ShiftRightExtra64Jamming;
    if e <= 0 {
      ExtraSpec(0, 0, 1 - e);
      DivUnique(0, Pow2(1 - e), 0);
    }
  }

  // ------------------------------------------------------------ the operation

  /** A dividend two or more binades below the divisor is its own remainder. */
  lemma FarBelow(a: Xfp, b: Xfp, na: nat, nb: nat, fa: U64, fb: U64)
    requires Mag(a) * Pow2(na) == fa * Ulp(a) && Mag(b) * Pow2(nb) == fb * Ulp(b) && fb >= TWO63
    requires ScaleExp(a) - na - (ScaleExp(b) - nb) < -1
    ensures 2 * Mag(a) < Mag(b)
  {
    hide Pow2, Mag;
    var ea, eb := ScaleExp(a) - 1 + nb, ScaleExp(b) - 1 + na;
    var c := Pow2(na + nb);
    Pow2Add(na, nb);
    Pow2Add(ScaleExp(a) - 1, nb);
    Pow2Add(ScaleExp(b) - 1, na);
    assert Mag(a) * c == fa * Pow2(ea) by { MulAssoc(Mag(a), Pow2(na), Pow2(nb)); MulAssoc(fa, Ulp(a), Pow2(nb)); }
    assert Mag(b) * c == fb * Pow2(eb) by {
      MulAssoc(Mag(b), Pow2(nb), Pow2(na));
      MulAssoc(fb, Ulp(b), Pow2(na));
    }
    assert Pow2(eb) >= 4 * Pow2(ea) by { Pow2Strict(ea, ea + 1); Pow2Strict(ea + 1, eb); }
    MulLe(4 * Pow2(ea), Pow2(eb), fb);
    MulLe(TWO63, fb, 4 * Pow2(ea));
    MulLt(fa, TWO64, Pow2(ea));
    assert 2 * Mag(a) * c == 2 * (Mag(a) * c);
    MulCancelLt(2 * Mag(a), Mag(b), c);
  }

  /** The remainder of the two magnitudes is num, and n is the quotient nearest to their ratio. */
  ghost predicate IsRemainder(ma: nat, mb: nat, n: nat, num: nat, flip: bool) {
    && ma - n * mb == (if flip then -(num as int) else num)
    && 2 * num <= mb && (2 * num == mb ==> n % 2 == 0)
    && (num == 0 ==> !flip)
  }

  /** Rounding the quotient to the nearest integer: the remainder or its complement to the divisor. */
  method RoundQuotient(q: U64, r0: U64, r1: U64, t0: U64, t1: U64, ghost total: nat)
    returns (w0: U64, w1: U64, flip: bool, ghost n: nat)
    requires Val(r0, r1) < Val(t0, t1) && q % 2 == total % 2
    ensures NearestQuotient(total, total % 2 == 1, Val(t0, t1), Val(r0, r1), n, Val(w0, w1), flip)
    ensures Val(w0, w1) == 0 ==> !flip
  {
    var alt0, alt1 := Sub128(t0, t1, r0, r1);
    DivUnique(Val(t0, t1) - Val(r0, r1), TWO128, 0);
    flip := Lt128(alt0, alt1, r0, r1) || (Eq128(alt0, alt1, r0, r1) && q % 2 == 1);
    w0, w1 := r0, r1;
    n := total;
    if flip {
      w0, w1 := alt0, alt1;
      n := total + 1;
    }
  }

  /** From the divided significands to the remainder of the magnitudes. */
  lemma RemainderIs(a: Xfp, b: Xfp, na: nat, nb: nat, fa: nat, fb: nat, d: int, s: nat,
                    total: nat, v: nat, n: nat, w: nat, flip: bool) returns (num: nat)
    requires Mag(a) * Pow2(na) == fa * Ulp(a) && Mag(b) * Pow2(nb) == fb * Ulp(b)
    requires d == ScaleExp(a) - na - (ScaleExp(b) - nb)
    requires Divides(fa, fb, d, s, total, v)
    requires NearestQuotient(total, total % 2 == 1, fb * Pow2(s), v, n, w, flip) && (w == 0 ==> !flip)
    ensures IsRemainder(Mag(a), Mag(b), n, num, flip)
    ensures num * Pow2(s + nb) == w * Ulp(b) && 2 * w <= fb * Pow2(s)
  {
    hide Pow2, Mag;
    var t := fb * Pow2(s);
    NearestBounds(total, t, v, n, w, flip);
    RemainderMag(a, b, na, nb, fa, fb, d, s, n, w, flip);
    var r := (Mag(a) - n * Mag(b)) * (if flip then -1 else 1);
    var c, z := Pow2(s + nb), Ulp(b);
    MulLe(0, w, z);
    if r < 0 { MulLe(r, -1, c); }
    num := r;
    SameHalf(num, Mag(b), c, w, t, z);
    if num == 0 { MulPositive(w, z); }
  }

  lemma MulPositive(w: nat, z: nat)
    requires z > 0 && w * z == 0
    ensures w == 0
  {
    if w > 0 { MulLt(0, w, z); }
  }

  /** The pair handed to the packer is a multiple of 2^s, or of 2^63 when the dividend was halved. */
  lemma PairDivisible(fa: nat, fb: nat, d: int, s: nat, total: nat, v: nat, n: nat, w: nat, flip: bool)
    returns (x: nat, j: nat)
    requires -1 <= d && Divides(fa, fb, d, s, total, v) && (d < 0 ==> s == 64)
    requires NearestQuotient(total, total % 2 == 1, fb * Pow2(s), v, n, w, flip)
    ensures w == x * Pow2(j) && j == (if d < 0 then 63 else s)
  {
    hide Pow2;
    NearestBounds(total, fb * Pow2(s), v, n, w, flip);
    var y: int;
    if d < 0 {
      j := 63;
      assert Pow2(64) == 2 * Pow2(63) by { Pow2Add(1, 63); Pow2Small(); }
      y := fa - n * (fb * 2);
      HalvedMultiple(fa, n, fb, Pow2(63));
    } else {
      j := s;
      Pow2Add(d, s);
      y := fa * Pow2(d) - n * fb;
      WholeMultiple(fa, Pow2(d), n, fb, Pow2(s));
    }
    x := SignedFactor(y, Pow2(j), w, flip);
  }

  lemma HalvedMultiple(fa: int, n: int, fb: int, p: int)
    ensures fa * p - n * (fb * (2 * p)) == (fa - n * (fb * 2)) * p
  {
    MulAssoc(fb, 2, p);
    MulAssoc(n, fb * 2, p);
  }

  lemma WholeMultiple(fa: int, pd: int, n: int, fb: int, p: int)
    ensures fa * (pd * p) - n * (fb * p) == (fa * pd - n * fb) * p
  {
    MulAssoc(fa, pd, p);
    MulAssoc(n, fb, p);
  }

  lemma SignedFactor(y: int, p: nat, w: nat, flip: bool) returns (x: nat)
    requires p > 0 && y * p == (if flip then -(w as int) else w)
    ensures w == x * p
  {
    var z := if flip then -y else y;
    assert z * p == w;
    if z < 0 { MulLe(z, -1, p); }
    x := z;
  }

  lemma PairScale(num: nat, w: nat, m: nat, z: nat, b: Xfp)
    requires num * Pow2(m) == w * Ulp(b)
    ensures num * TWO64 * Pow2(m) == w * Pow2(ScaleExp(b) - 1 + 64)
  {
    hide Pow2;
    Pow2Add(ScaleExp(b) - 1, 64);
    assert Pow2(64) == TWO64 by { Pow2Words(); }
    Swap(num, TWO64, Pow2(m));
    MulAssoc(w, Ulp(b), TWO64);
  }

  /**
   Packing the remainder raises nothing and loses nothing: it fits in 64 significant bits
   and never reaches the divisor's exponent.
   */
  method PackRemainder(sign: bool, w0: U64, w1: U64, exp: int, rm: RoundMode,
                       ghost b: Xfp, ghost nb: nat, ghost fb: U64, ghost s: nat, ghost num: nat,
                       ghost x: nat, ghost j: nat)
    returns (p: Packed<Xfp>)
    requires Canonical(b) && nb <= 63 && s <= 64 && exp == ScaleExp(b) - nb + 64 - s
    requires num * Pow2(s + nb) == Val(w0, w1) * Ulp(b) && 2 * Val(w0, w1) <= fb * Pow2(s)
    requires Val(w0, w1) == x * Pow2(j) && (j == s || (j == 63 && s == 64))
    ensures Canonical(p.value) && p.value.sign == sign && Mag(p.value) == num && p.raised == {}
  {
    hide Pow2, RoundPackXfp, Mag, Val;
    ghost var k;
    p, k := NormalizeRoundPackXfp(sign, exp, w0, w1, rm);
    ghost var w := Val(w0, w1);
    if w == 0 {
      assert num == 0 by { MulPositive(num, Pow2(s + nb)); }
      DivUnique(0, TWO64, 0);
      ZeroPack(sign, exp - k, rm);
      ZeroHasNoMag(sign);
    } else {
      NormalizesFar(w, k, fb, s);
      LowWordEmpty(w, k, x, j);
      PairScale(num, w, s + nb, Ulp(b), b);
      ExactRemainder(sign, w, k, s + nb, ScaleExp(b) - 1 + 64, rm, num);
    }
  }

  lemma ZeroHasNoMag(sign: bool)
    ensures Mag(Xfp(sign, 0, 0, false)) == 0
  {
  }

  /** The signed quotient: nearest to a/b when the magnitudes' quotient is nearest to theirs. */
  lemma SignedRemainder(a: Xfp, b: Xfp, r: Xfp, m: nat, flip: bool) returns (n: int)
    requires IsRemainder(Mag(a), Mag(b), m, Mag(r), flip) && r.sign == (a.sign != flip)
    ensures SignedMag(r) == SignedMag(a) - n * SignedMag(b)
    ensures 2 * Mag(r) <= Mag(b) && (2 * Mag(r) == Mag(b) ==> n % 2 == 0)
    ensures Mag(r) == 0 ==> r.sign == a.sign
  {
    hide Mag;
    n := if a.sign == b.sign then m else -(m as int);
    Signs(m, Mag(b));
  }

  lemma Signs(m: int, x: int)
    ensures (-m) * x == -(m * x) && m * (-x) == -(m * x) && (-m) * (-x) == m * x
  {
  }

  /**
   For every finite dividend and non-zero divisor: r = a - n*b exactly, with n nearest a/b and
   even on a tie, no condition raised, and a zero remainder taking the dividend's sign.
   A zero divisor is invalid.  When the dividend itself is the result its sticky field is left
   as it was (`stale`).
   */
  method XfpRemainder(a: Xfp, b: Xfp, rm: RoundMode, stale: bool) returns (p: Packed<Xfp>, ghost n: int)
    requires Canonical(a) && Canonical(b)
    ensures IsZero(b) ==> p == Packed(DEFAULT_NAN.(sticky := stale), {Invalid})
    ensures !IsZero(b) ==> p.raised == {} && Canonical(p.value)
    ensures !IsZero(b) ==> SignedMag(p.value) == SignedMag(a) - n * SignedMag(b)
    ensures !IsZero(b) ==> 2 * Mag(p.value) <= Mag(b) && (2 * Mag(p.value) == Mag(b) ==> n % 2 == 0)
    ensures !IsZero(b) && Mag(p.value) == 0 ==> p.value.sign == a.sign
  {
    hide Pow2, RoundPackXfp, Mag, Val, Divides, NearestQuotient, Ulp;
    n := 0;
    if IsZero(b) {
      return Packed(DEFAULT_NAN.(sticky := stale), {Invalid}), 0;
    }
    var eb, fb, nb := Unpack(b);
    PositiveMag(b);
    if IsZero(a) {
      ZeroDividend(a, stale);
      return Packed(a.(sticky := stale), {}), 0;
    }
    var ea, fa, na := Unpack(a);
    var d := ea - eb;
    if d < -1 {
      FarBelow(a, b, na, nb, fa, fb);
      SameMag(a, stale);
      return Packed(a.(sticky := stale), {}), 0;
    }
    p, n := NearRemainder(a, b, rm, eb, fa, fb, d, na, nb);
  }

  /** The remainder when the dividend is at most one binade below the divisor. */
  method NearRemainder(a: Xfp, b: Xfp, rm: RoundMode, eb: int, fa: U64, fb: U64, d: int, ghost na: nat, ghost nb: nat)
    returns (p: Packed<Xfp>, ghost n: int)
    requires Canonical(a) && Canonical(b) && fa >= TWO63 && fb >= TWO63 && nb <= 63
    requires Mag(a) * Pow2(na) == fa * Ulp(a) && Mag(b) * Pow2(nb) == fb * Ulp(b)
    requires eb == ScaleExp(b) - nb && d == ScaleExp(a) - na - eb && d >= -1
    ensures p.raised == {} && Canonical(p.value)
    ensures SignedMag(p.value) == SignedMag(a) - n * SignedMag(b)
    ensures 2 * Mag(p.value) <= Mag(b) && (2 * Mag(p.value) == Mag(b) ==> n % 2 == 0)
    ensures Mag(p.value) == 0 ==> p.value.sign == a.sign
  {
    hide Pow2, RoundPackXfp, Mag, Val, Divides, NearestQuotient, Ulp, SignedMag, IsRemainder, ScaleExp;
    var q, r0, r1, t0, t1, count, total := DivideDown(fa, fb, d);
    DividesBound(fa, fb, d, 64 - count, total, Val(r0, r1));
    var w0, w1, flip, m := RoundQuotient(q, r0, r1, t0, t1, total);
    ghost var num := RemainderIs(a, b, na, nb, fa, fb, d, 64 - count, total, Val(r0, r1), m, Val(w0, w1), flip);
    ghost var x, j := PairDivisible(fa, fb, d, 64 - count, total, Val(r0, r1), m, Val(w0, w1), flip);
    p := PackRemainder(a.sign != flip, w0, w1, eb + count, rm, b, nb, fb, 64 - count, num, x, j);
    n := SignedRemainder(a, b, p.value, m, flip);
  }

  lemma DividesBound(a: nat, b: nat, d: int, s: nat, total: nat, v: nat)
    requires Divides(a, b, d, s, total, v)
    ensures v < b * Pow2(s)
  {
  }

  lemma ZeroDividend(a: Xfp, stale: bool)
    requires IsZero(a)
    ensures Mag(a.(sticky := stale)) == 0 && Mag(a) == 0
  {
  }

  lemma SameMag(a: Xfp, stale: bool)
    ensures Mag(a.(sticky := stale)) == Mag(a)
  {
  }
}
