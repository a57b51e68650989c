/**
 The quotient estimator: dividing a 128-bit number by a normalized 64-bit divisor, two
 32-bit digits at a time.  The result is the true quotient or at most two above it.
 */
module EstimateDiv {
  import opened Powers
  import opened Words128

  /** One digit of the estimate: the leading half of the divisor against two digits. */
  function Digit(r: nat, b0: nat): (z: nat)
    requires b0 > 0
  {
    if b0 * TWO32 <= r then TWO32 - 1 else r / b0
  }

  /**
   With the divisor normalized, the digit is never too small and at most two too large:
   the remainder it leaves lies between -2b and b.
   */
  lemma DigitError(r: nat, d: nat, b0: nat, bl: nat)
    requires TWO31 <= b0 < TWO32 && bl < TWO32 && d < TWO32
    requires r < b0 * TWO32 + bl
    ensures var b, z := b0 * TWO32 + bl, Digit(r, b0);
            z < TWO32 && -2 * b <= r * TWO32 + d - z * b < b
  {
    var b, z := b0 * TWO32 + bl, Digit(r, b0);
    var n := r * TWO32 + d;
    assert z * b == (z * b0) * TWO32 + z * bl by { MulAssoc(z, b0, TWO32); }
    if b0 * TWO32 <= r {
      assert z * b0 == TWO32 * b0 - b0;
      assert 0 <= z * bl <= (TWO32 - 1) * (TWO32 - 1) by { HalfProductBound(z, bl); }
    } else {
      DivModBasics(r, b0);
      if z >= TWO32 { MulLe(TWO32, z, b0); }
      assert 0 <= z * bl <= (TWO32 - 1) * (TWO32 - 1) by { HalfProductBound(z, bl); }
      assert r - b0 < z * b0 <= r;
    }
  }

  /** The estimate z of a quotient, off by the remainder it leaves. */
  lemma QuotientFromRemainder(a: nat, b: nat, z: nat, over: nat)
    requires b > 0 && -(over * b) <= a - z * b < b
    ensures a / b <= z <= a / b + over
  {
    var q := a / b;
    DivModBasics(a, b);
    if z < q { MulLe(z + 1, q, b); }
    assert (q + over + 1) * b == q * b + over * b + b;
    if z > q + over { MulLe(q + over + 1, z, b); }
  }

  /** Scaling the digit's error by one half word and appending the next digits. */
  lemma ScaleError(r: int, z: int, b: int, d: nat, low: nat)
    requires low < TWO32 && -2 * b <= r * TWO32 + d - z * b < b
    ensures var rem := (r * TWO32 + d) * TWO32 + low - b * (z * TWO32);
            -2 * (b * TWO32) <= rem < b * TWO32
  {
    var e := r * TWO32 + d - z * b;
    assert b * (z * TWO32) == (z * b) * TWO32;
    assert (r * TWO32 + d) * TWO32 + low - b * (z * TWO32) == e * TWO32 + low;
  }

  /** Taking one high digit too many back off the estimate adds b * 2^32 to the remainder. */
  lemma BackOff(a: int, b: int, z: int)
    ensures a - b * (z - TWO32) == a - b * z + b * TWO32
  {
  }

  /** The low digit of the quotient, appended to an exact high digit. */
  lemma LowDigit(a: nat, b: nat, z: nat, rem: nat, low: nat)
    requires TWO63 <= b < TWO64 && z % TWO32 == 0 && rem == a - b * z < b * TWO32
    requires low == Digit(rem / TWO32, b / TWO32)
    ensures low < TWO32 && a / b <= z + low <= a / b + 2
  {
    var b0, bl := b / TWO32, b % TWO32;
    var r, d := rem / TWO32, rem % TWO32;
    DivModBasics(b, TWO32);
    DivModBasics(rem, TWO32);
    DigitError(r, d, b0, bl);
    assert a - (z + low) * b == rem - low * b;
    QuotientFromRemainder(a, b, z + low, 2);
  }

  method EstimateDiv128To64(a0: U64, a1: U64, b: U64) returns (z: U64)
    requires TWO63 <= b
    ensures b <= a0 ==> z == TWO64 - 1
    ensures a0 < b ==> Val(a0, a1) / b <= z <= Val(a0, a1) / b + 2
  {
    if b <= a0 {
      return TWO64 - 1;
    }
    var b0 := b / TWO32;
    var rem0, rem1;
    z, rem0, rem1 := HighDigit(a0, a1, b);
    HighPart(rem0, rem1, b);
    var r := (rem0 % TWO32) * TWO32 + rem1 / TWO32;
    LowDigit(Val(a0, a1), b, z, Val(rem0, rem1), Digit(r, b0));
    var low := if b0 * TWO32 <= r then TWO32 - 1 else r / b0;
    z := z + low;
  }

  /** The high digit and the exact remainder it leaves. */
  method HighDigit(a0: U64, a1: U64, b: U64) returns (z: U64, rem0: U64, rem1: U64)
    requires TWO63 <= b && a0 < b
    ensures z % TWO32 == 0 && z <= TWO64 - TWO32
    ensures Val(rem0, rem1) == Val(a0, a1) - b * z < b * TWO32
  {
    FirstDigit(a0, a1, b);
    var b0 := b / TWO32;
    z := (if b0 * TWO32 <= a0 then TWO32 - 1 else a0 / b0) * TWO32;
    var term0, term1 := Mul64To128(b, z);
    rem0, rem1 := Sub128(a0, a1, term0, term1);
    SignedUnique(rem0, rem1, Val(a0, a1) - b * z);
    z, rem0, rem1 := CorrectHigh(Val(a0, a1), b, z, rem0, rem1);
  }

  /** The estimate is corrected while the remainder is negative, which happens at most twice. */
  method CorrectHigh(ghost a: int, b: U64, z0: U64, r0: U64, r1: U64) returns (z: U64, rem0: U64, rem1: U64)
    requires a >= 0 && b > 0 && z0 % TWO32 == 0 && z0 <= TWO64 - TWO32
    requires Signed(r0, r1) == a - b * z0
    requires -2 * (b * TWO32) <= a - b * z0 < b * TWO32
    ensures z % TWO32 == 0 && z <= z0 <= z + 2 * TWO32
    ensures Val(rem0, rem1) == a - b * z < b * TWO32
  {
    z, rem0, rem1 := z0, r0, r1;
    ghost var rem, step: int := a - b * z, b * TWO32;
    while Negative(rem0)
      invariant rem < step && Signed(rem0, rem1) == rem == a - b * z
      invariant z % TWO32 == 0
      invariant (z == z0 && rem >= -2 * step) || (z == z0 - TWO32 && rem >= -step) || (z == z0 - 2 * TWO32 && rem >= 0)
      decreases z
    {
      HighDigitPositive(a, b, z);
      BackOff(a, b, z);
      z := z - TWO32;
      rem0, rem1 := AddShifted(rem0, rem1, b);
      rem := rem + step;
    }
  }

  /** Adding the divisor, shifted left by a half word, to a negative remainder. */
  method AddShifted(rem0: U64, rem1: U64, b: U64) returns (s0: U64, s1: U64)
    requires Negative(rem0) && b > 0
    ensures Signed(s0, s1) == Signed(rem0, rem1) + b * TWO32
  {
    var b0, b1 := b / TWO32, (b * TWO32) % TWO64;
    WrappedProduct(b);
    s0, s1 := Add128(rem0, rem1, b0, b1);
    WrappedAdd(rem0, rem1, s0, s1, Signed(rem0, rem1), b * TWO32);
  }

  lemma FirstDigit(a0: U64, a1: U64, b: U64)
    requires TWO63 <= b && a0 < b
    ensures b / TWO32 > 0
    ensures var z := Digit(a0, b / TWO32) * TWO32;
            0 <= z <= TWO64 - TWO32 && z % TWO32 == 0 && -2 * (b * TWO32) <= Val(a0, a1) - b * z < b * TWO32
  {
    var b0, bl := b / TWO32, b % TWO32;
    var d, low := a1 / TWO32, a1 % TWO32;
    DivModBasics(b, TWO32);
    DivModBasics(a1, TWO32);
    DigitError(a0, d, b0, bl);
    var digit := Digit(a0, b0);
    ScaleError(a0, digit, b, d, low);
    assert (a0 * TWO32 + d) * TWO32 + low == Val(a0, a1);
  }

  lemma HighDigitPositive(a: nat, b: nat, z: nat)
    requires a - b * z < 0 && z % TWO32 == 0
    ensures z >= TWO32 && (z - TWO32) % TWO32 == 0
  {
    assert z != 0;
  }

  lemma WrappedProduct(b: U64)
    ensures 0 <= (b * TWO32) % TWO64 < TWO64
    ensures (b / TWO32) * TWO64 + (b * TWO32) % TWO64 == b * TWO32
  {
    DivModBasics(b, TWO32);
    DivUnique(b * TWO32, TWO64, b / TWO32);
  }

  lemma WrappedAdd(r0: U64, r1: U64, s0: U64, s1: U64, rem: int, step: int)
    requires Signed(r0, r1) == rem && Negative(r0) && 0 < step < TWO32 * TWO64
    requires Val(s0, s1) == (Val(r0, r1) + step) % TWO128
    ensures Signed(s0, s1) == rem + step
  {
    var v := Val(r0, r1) + step;
    if v < TWO128 {
      DivUnique(v, TWO128, 0);
    } else {
      DivUnique(v, TWO128, 1);
    }
  }

  /** A remainder below b * 2^32 fits in one word once its low half word is dropped. */
  lemma HighPart(r0: U64, r1: U64, b: U64)
    requires Val(r0, r1) < b * TWO32
    ensures 0 <= (r0 % TWO32) * TWO32 + r1 / TWO32 < TWO64
    ensures (r0 % TWO32) * TWO32 + r1 / TWO32 == Val(r0, r1) / TWO32
  {
    assert r0 < TWO32;
    DivModBasics(r1, TWO32);
    DivUnique(Val(r0, r1), TWO32, r0 * TWO32 + r1 / TWO32);
  }
}
