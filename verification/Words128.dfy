/**
 128-bit arithmetic on pairs of 64-bit words, and the shifts that keep or jam lost bits.

 In the source the high word of a pair is called `0` (or `r_low`) and the low word `1`
 (or `r_high`); here they are `hi` and `lo`.
 */
module Words128 {
  import opened Powers

  /** The value of a pair of words. */
  function Val(hi: U64, lo: U64): (v: nat)
    ensures v < TWO128
  {
    hi * TWO64 + lo
  }

  predicate Le128(a0: U64, a1: U64, b0: U64, b1: U64): (r: bool)
    ensures r <==> Val(a0, a1) <= Val(b0, b1)
  {
    a0 < b0 || (a0 == b0 && a1 <= b1)
  }

  predicate Eq128(a0: U64, a1: U64, b0: U64, b1: U64): (r: bool)
    ensures r <==> Val(a0, a1) == Val(b0, b1)
  {
    a0 == b0 && a1 == b1
  }

  predicate Lt128(a0: U64, a1: U64, b0: U64, b1: U64): (r: bool)
    ensures r <==> Val(a0, a1) < Val(b0, b1)
  {
    a0 < b0 || (a0 == b0 && a1 < b1)
  }

  /** A C boolean used as an integer. */
  function Bit(b: bool): (r: nat) {
    if b then 1 else 0
  }

  /** Logical right shift; bits shifted off are lost. */
  function Shr(x: nat, n: nat): (r: nat)
    ensures r <= x
  {
    QuotientBound(x, Pow2(n));
    x / Pow2(n)
  }

  /** Left shift within a 64-bit word. */
  function Shl64(x: U64, n: nat): (r: U64) {
    (x * Pow2(n)) % TWO64
  }

  method Add128(a0: U64, a1: U64, b0: U64, b1: U64) returns (hi: U64, lo: U64)
    ensures Val(hi, lo) == (Val(a0, a1) + Val(b0, b1)) % TWO128
  {
    lo := (a1 + b1) % TWO64;
    ghost var c := if a1 + b1 < TWO64 then 0 else 1;
    DivUnique(a1 + b1, TWO64, c);
    hi := (a0 + b0 + Bit(lo < a1)) % TWO64;
    ghost var d := if a0 + b0 + c < TWO64 then 0 else 1;
    DivUnique(a0 + b0 + c, TWO64, d);
    DivUnique(Val(a0, a1) + Val(b0, b1), TWO128, d);
  }

  method Sub128(a0: U64, a1: U64, b0: U64, b1: U64) returns (hi: U64, lo: U64)
    ensures Val(hi, lo) == (Val(a0, a1) - Val(b0, b1)) % TWO128
  {
    lo := (a1 - b1) % TWO64;
    ghost var c := if a1 < b1 then -1 else 0;
    DivUnique(a1 - b1, TWO64, c);
    hi := (a0 - b0 - Bit(a1 < b1)) % TWO64;
    ghost var d := if a0 - b0 + c < 0 then -1 else 0;
    DivUnique(a0 - b0 + c, TWO64, d);
    DivUnique(Val(a0, a1) - Val(b0, b1), TWO128, d);
  }

  /** Splitting both factors into half words. */
  lemma ProductOfHalves(ah: int, al: int, bh: int, bl: int)
    ensures (ah * TWO32 + al) * (bh * TWO32 + bl)
         == (ah * bh) * TWO64 + (al * bh + ah * bl) * TWO32 + al * bl
  {
    var x, y := ah * TWO32, bh * TWO32;
    assert (x + al) * (y + bl) == x * y + x * bl + al * y + al * bl;
    assert x * y == (ah * bh) * TWO64;
    assert x * bl == (ah * bl) * TWO32;
    assert al * y == (al * bh) * TWO32;
  }

  lemma HalfProductBound(x: int, y: int)
    requires 0 <= x < TWO32 && 0 <= y < TWO32
    ensures 0 <= x * y <= (TWO32 - 1) * (TWO32 - 1)
  {
    MulLe(0, x, y);
    MulLe(x, TWO32 - 1, y);
    MulLe(y, TWO32 - 1, TWO32 - 1);
  }

  /** The exact 128-bit product of two words, from four 32-bit partial products. */
  method Mul64To128(a: U64, b: U64) returns (hi: U64, lo: U64)
    ensures Val(hi, lo) == a * b
  {
    var aLow, aHigh := a % TWO32, a / TWO32;
    var bLow, bHigh := b % TWO32, b / TWO32;
    HalfProductBound(aLow, bLow);
    HalfProductBound(aLow, bHigh);
    HalfProductBound(aHigh, bLow);
    HalfProductBound(aHigh, bHigh);
    ProductOfHalves(aHigh, aLow, bHigh, bLow);
    var p00, p01, p10, p11 := aLow * bLow, aLow * bHigh, aHigh * bLow, aHigh * bHigh;
    assert a * b == p11 * TWO64 + (p01 + p10) * TWO32 + p00;
    hi, lo := Accumulate(p00, p01, p10, p11);
  }

  /** Adding up the four partial products with explicit carries. */
  method Accumulate(p00: U64, p01: U64, p10: U64, p11: U64) returns (hi: U64, lo: U64)
    requires p11 * TWO64 + (p01 + p10) * TWO32 + p00 < TWO128
    ensures Val(hi, lo) == p11 * TWO64 + (p01 + p10) * TWO32 + p00
  {
    var mid := (p01 + p10) % TWO64;
    ghost var c := CarryOf(p01, p10);
    hi := (p11 + (Bit(mid < p10) * TWO32 + mid / TWO32)) % TWO64;
    var midLow := (mid % TWO32) * TWO32;
    DivModBasics(mid, TWO32);
    lo := (p00 + midLow) % TWO64;
    ghost var d := CarryOf(p00, midLow);
    ghost var top := p11 + c * TWO32 + mid / TWO32;
    assert p11 * TWO64 + (p01 + p10) * TWO32 + p00 == (top + d) * TWO64 + lo;
    DivUnique(top, TWO64, 0);
    DivUnique(top + d, TWO64, 0);
    hi := (hi + Bit(lo < midLow)) % TWO64;
  }

  /** The carry out of a 64-bit addition, which shows as a sum below either addend. */
  ghost function CarryOf(x: U64, y: U64): (c: nat)
    ensures c == Bit((x + y) % TWO64 < y) == Bit((x + y) % TWO64 < x)
    ensures x + y == c * TWO64 + (x + y) % TWO64
  {
    var c := if x + y < TWO64 then 0 else 1;
    DivUnique(x + y, TWO64, c);
    c
  }

  /** Sign of a word read as a two's-complement number. */
  predicate Negative(x: U64) {
    x >= TWO63
  }

  /** A pair read as a signed 128-bit number; used where a borrow went below zero. */
  function Signed(hi: U64, lo: U64): (v: int) {
    if Negative(hi) then Val(hi, lo) - TWO128 else Val(hi, lo)
  }

  /** A difference that fits in 127 bits survives the wrap-around of Sub128 and Add128. */
  lemma SignedUnique(hi: U64, lo: U64, v: int)
    requires Val(hi, lo) == v % TWO128
    requires -(TWO63 * TWO64) <= v < TWO63 * TWO64
    ensures Signed(hi, lo) == v
    ensures Negative(hi) <==> v < 0
  {
  }

  /** Right shift of a pair; bits shifted off are lost. */
  method ShiftRight128(a: U64, b: U64, count: nat) returns (hi: U64, lo: U64)
    ensures Val(hi, lo) == Val(a, b) / Pow2(count)
  {
    if count == 0 {
      hi, lo := a, b;
    } else if count < 64 {
      ShortPowers(count);
      SplitShift(a, b, Pow2(count), Pow2(64 - count));
      hi := Shr(a, count);
      lo := Shl64(a, 64 - count) + Shr(b, count);
    } else {
      LongShift(a, b, count);
      hi := 0;
      lo := if count < 128 then Shr(a, count % 64) else 0;
    }
  }

  /** The two halves of a shift by less than a word. */
  lemma ShortPowers(count: nat)
    requires 0 < count <= 64
    ensures Pow2(count) > 1
    ensures count < 64 ==> Pow2(64 - count) > 1
    ensures Pow2(count) * Pow2(64 - count) == TWO64
  {
    Pow2Words();
    Pow2Add(count, 64 - count);
    Pow2Strict(0, count);
    if count < 64 { Pow2Strict(0, 64 - count); }
  }

  lemma LongShift(a: U64, b: U64, count: nat)
    requires 64 <= count
    ensures Val(a, b) / Pow2(count) == if count < 128 then a / Pow2(count % 64) else 0
  {
    hide Pow2;
    var p := Pow2(count - 64);
    assert Pow2(count) == TWO64 * p by { Pow2Add(64, count - 64); Pow2Words(); }
    DropLowWord(a, b, p);
    if count < 128 {
      assert count % 64 == count - 64;
    } else {
      assert p >= TWO64 by { Pow2Monotone(64, count - 64); Pow2Words(); }
      DivUnique(a, p, 0);
    }
  }

  lemma DropLowWord(a: U64, b: U64, p: nat)
    requires p > 0
    ensures Val(a, b) / (TWO64 * p) == a / p
  {
    NestedDiv(Val(a, b), TWO64, p);
    DivUnique(Val(a, b), TWO64, a);
  }

  lemma NestedDiv(x: nat, m: nat, n: nat)
    requires m > 0 && n > 0
    ensures m * n > 0 && x / (m * n) == x / m / n
  {
    var y := x / m;
    var q, r, s := y / n, x % m, y % n;
    DivModBasics(x, m);
    DivModBasics(y, n);
    Unnest(q, s, r, m, n);
    MulLt(0, m, n);
    MulLe(s + 1, n, m);
    DivUnique(x, m * n, q);
  }

  lemma Unnest(q: int, s: int, r: int, m: int, n: int)
    ensures (q * n + s) * m + r == q * (m * n) + s * m + r
    ensures (q + 1) * (m * n) == q * (m * n) + n * m
    ensures (s + 1) * m == s * m + m
  {
  }

  /** A left shift within a word keeps the low bits, scaled. */
  lemma WrappedShift(a: U64, p: nat, n: nat)
    requires p > 0 && n > 0 && p * n == TWO64
    ensures (a * n) % TWO64 == (a % p) * n <= TWO64 - n
  {
    var ah, al := a / p, a % p;
    DivModBasics(a, p);
    assert a * n == ah * TWO64 + al * n by { assert (ah * p) * n == ah * (p * n); }
    MulLe(al, p - 1, n);
    assert (p - 1) * n == TWO64 - n;
    DivUnique(a * n, TWO64, ah);
  }

  /** How the bits of `a` and `b` distribute over the two result words. */
  lemma SplitShift(a: U64, b: U64, p: nat, n: nat)
    requires p > 1 && n > 1 && p * n == TWO64
    ensures 0 <= (a * n) % TWO64 + b / p < TWO64
    ensures (a / p) * TWO64 + ((a * n) % TWO64 + b / p) == Val(a, b) / p
  {
    var ah, al, bh, bl := a / p, a % p, b / p, b % p;
    WrappedShift(a, p, n);
    DivModBasics(a, p);
    DivModBasics(b, p);
    assert 0 <= bh < n by { SmallQuotient(b, p, n); }
    Regroup(ah, al, bh, p, n);
    var z := ah * TWO64 + al * n + bh;
    assert z * p <= Val(a, b) < z * p + p;
    assert (z + 1) * p == z * p + p;
    DivUnique(Val(a, b), p, z);
  }

  lemma SmallQuotient(b: nat, p: nat, n: nat)
    requires p > 0 && b < p * n
    ensures 0 <= b / p < n
  {
    QuotientBound(b, p);
    DivModBasics(b, p);
    if b / p >= n { MulLe(n, b / p, p); }
  }

  lemma Regroup(ah: int, al: int, bh: int, p: int, n: int)
    ensures (ah * p + al) * (p * n) + bh * p == (ah * (p * n) + al * n + bh) * p
  {
    var w := p * n;
    calc {
      (ah * (p * n) + al * n + bh) * p;
      ah * w * p + al * n * p + bh * p;
      { assert al * n * p == al * w; assert ah * w * p == (ah * p) * w; }
      (ah * p) * w + al * w + bh * p;
      (ah * p + al) * w + bh * p;
    }
  }

  lemma QuotientBound(a: nat, p: nat)
    requires p > 0
    ensures 0 <= a / p <= a
  {
    DivModBasics(a, p);
    if a / p < 0 { MulLe(a / p, -1, p); }
    else { MulLe(1, p, a / p); }
  }

  /** Left shift of a pair by 0..64 (only a zero pair is ever shifted by 64). */
  method ShortShiftLeft128(a: U64, b: U64, count: nat) returns (hi: U64, lo: U64)
    requires count <= 64
    requires Val(a, b) * Pow2(count) < TWO128
    ensures Val(hi, lo) == Val(a, b) * Pow2(count)
  {
    if count == 0 {
      hi, lo := a, b;
    } else {
      ShortPowers(count);
      LeftSplit(a, b, Pow2(count), Pow2(64 - count));
      lo := Shl64(b, count);
      hi := Shl64(a, count) + Shr(b, 64 - count);
    }
  }

  lemma LeftSplit(a: U64, b: U64, p: nat, n: nat)
    requires p > 1 && n > 0 && p * n == TWO64
    requires Val(a, b) * p < TWO128
    ensures (b * p) % TWO64 == (b % n) * p
    ensures 0 <= a * p <= a * p + b / n < TWO64
    ensures (a * p) % TWO64 == a * p
    ensures (a * p + b / n) * TWO64 + (b * p) % TWO64 == Val(a, b) * p
  {
    var bh, bl := b / n, b % n;
    assert b == bh * n + bl;
    assert b * p == bh * TWO64 + bl * p by { assert (bh * n) * p == bh * (n * p); }
    MulLe(bl, n - 1, p);
    assert (n - 1) * p == TWO64 - p;
    DivUnique(b * p, TWO64, bh);
    assert Val(a, b) * p == (a * p) * TWO64 + b * p by { assert (a * TWO64) * p == (a * p) * TWO64; }
    if a * p + bh >= TWO64 { MulLe(TWO64, a * p + bh, TWO64); }
    MulLe(0, a, p);
    if bh < 0 { MulLe(bh, -1, n); }
    DivUnique(a * p, TWO64, 0);
  }
}
