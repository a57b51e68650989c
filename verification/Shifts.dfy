/**
 Normalizing and jamming shifts.  A jamming shift keeps, in the least significant bit of
 its result, whether any non-zero bit was shifted off.
 */
module Shifts {
  import opened Powers
  import opened Words128

  /** `q` with its least significant bit forced to one if something was lost. */
  function Jam(q: nat, lost: bool): (r: nat)
    ensures r / 2 == q / 2 && q <= r <= q + 1
    ensures r == 0 <==> q == 0 && !lost
    ensures !lost ==> r == q
  {
    if lost && q % 2 == 0 then q + 1 else q
  }

  function ShiftRight64Jamming(val: U64, count: nat): (r: nat)
    ensures r < TWO64
  {
    if count == 0 then val
    else if count < 64 then Jam(Shr(val, count), Shl64(val, 64 - count) != 0)
    else Bit(val != 0)
  }

  /** Whatever the distance, the result is the quotient with the loss jammed into it. */
  lemma JamSpec(val: U64, count: nat)
    ensures ShiftRight64Jamming(val, count) == Jam(Shr(val, count), val % Pow2(count) != 0)
    ensures count > 0 ==> ShiftRight64Jamming(val, count) < TWO63
  {
    var p := Pow2(count);
    if 0 < count < 64 {
      ShortPowers(count);
      LostBits(val, p, Pow2(64 - count));
      HalfBound(val, p);
    } else if 64 <= count {
      WholeWordShift(val, count);
    }
  }

  lemma WholeWordShift(val: U64, count: nat)
    requires count >= 64
    ensures val / Pow2(count) == 0 && val % Pow2(count) == val
  {
    assert Pow2(count) >= TWO64 by { Pow2Monotone(64, count); Pow2Words(); }
    DivUnique(val, Pow2(count), 0);
  }

  lemma LostBits(val: U64, p: nat, n: nat)
    requires p > 0 && n > 0 && p * n == TWO64
    ensures (val * n) % TWO64 != 0 <==> val % p != 0
  {
    WrappedShift(val, p, n);
    DivModBasics(val, p);
    if val % p != 0 { MulLe(1, val % p, n); }
  }

  lemma HalfBound(val: U64, p: nat)
    requires p > 1
    ensures 0 <= val / p < TWO63
  {
    QuotientBound(val, p);
    DivModBasics(val, p);
    MulLe(2, p, val / p);
  }

  /**
   Shift the pair right by `count`, keeping the high word exact and collapsing everything
   below the low word into its least significant bit.
   */
  function ShiftRightExtra64Jamming(a: U64, b: U64, count: nat): (r: (U64, U64)) {
    if count == 0 then (a, b)
    else if count < 64 then (Shr(a, count), Jam(Shl64(a, 64 - count), b != 0))
    else if count == 64 then (0, Jam(a, b != 0))
    else (0, Bit(a != 0 || b != 0))
  }

  lemma ExtraSpec(a: U64, b: U64, count: nat)
    ensures var r := ShiftRightExtra64Jamming(a, b, count);
            && r.0 == a / Pow2(count)
            && (r.1 != 0 <==> b != 0 || a % Pow2(count) != 0)
  {
    if 0 < count < 64 {
      ShortPowers(count);
      LostBits(a, Pow2(count), Pow2(64 - count));
    } else if 64 <= count {
      WholeWordShift(a, count);
    }
  }

  /** A single word shifted by at most a word loses nothing. */
  lemma ExtraExact(a: U64, count: nat)
    requires count <= 64
    ensures var r := ShiftRightExtra64Jamming(a, 0, count);
            Val(r.0, r.1) * Pow2(count) == a * TWO64
  {
    if 0 < count < 64 {
      var p, n := Pow2(count), Pow2(64 - count);
      ShortPowers(count);
      WrappedShift(a, p, n);
      DivModBasics(a, p);
      Rejoin(a / p, a % p, p, n);
    } else if count == 64 {
      Pow2Words();
    }
  }

  lemma Rejoin(q: int, r: int, p: int, n: int)
    requires p * n == TWO64
    ensures (q * TWO64 + r * n) * p == (q * p + r) * TWO64
  {
    calc {
      (q * TWO64 + r * n) * p;
      (q * TWO64) * p + (r * n) * p;
      { assert (q * TWO64) * p == (q * p) * TWO64; assert (r * n) * p == r * (p * n); }
      (q * p) * TWO64 + r * TWO64;
    }
  }

  /** One step of the binary search: if the top `k` bits are clear, shift them out. */
  method ClearTop(v: nat, n: nat, k: nat, ghost val: nat) returns (v': nat, n': nat)
    requires 0 < k <= 16 && v == val * Pow2(n) < TWO32
    ensures v' == val * Pow2(n') < TWO32
    ensures v < Pow2(32 - k) ==> n' == n + k && v' == v * Pow2(k)
    ensures v >= Pow2(32 - k) ==> n' == n && v' == v
  {
    if v <= Pow2(32 - k) - 1 {
      Extend(val, n, k);
      Pow2Add(32 - k, k);
      assert Pow2(32) == TWO32 by { Pow2Words(); }
      MulLt(v, Pow2(32 - k), Pow2(k));
      v', n' := v * Pow2(k), n + k;
    } else {
      v', n' := v, n;
    }
  }

  /**
   Leading zeros of a 32-bit value by binary search.  The routine answers 31 for zero,
   which no caller passes.
   */
  method LeadingZeros32(val: nat) returns (n: nat)
    requires val < TWO32
    ensures n <= 31
    ensures val > 0 ==> TWO31 <= val * Pow2(n) < TWO32
    ensures val == 0 ==> n == 31
  {
    var v := val;
    n := 0;
    v, n := ClearTop(v, n, 16, val);
    v, n := ClearTop(v, n, 8, val);
    v, n := ClearTop(v, n, 4, val);
    v, n := ClearTop(v, n, 2, val);
    v, n := ClearTop(v, n, 1, val);
    SearchPowers();
  }

  lemma SearchPowers()
    ensures Pow2(16) == 0x1_0000 && Pow2(24) == 0x100_0000 && Pow2(28) == 0x1000_0000
    ensures Pow2(30) == 0x4000_0000 && Pow2(31) == TWO31
    ensures Pow2(8) == 0x100 && Pow2(4) == 0x10 && Pow2(2) == 4 && Pow2(1) == 2
  {
    Pow2Small();
    Pow2Add(16, 8);
    assert Pow2(28) == 0x10 * Pow2(24);
    assert Pow2(31) == 8 * Pow2(28);
  }

  lemma Extend(val: int, m: nat, k: nat)
    ensures val * Pow2(m + k) == val * Pow2(m) * Pow2(k)
  {
    Pow2Add(m, k);
    MulAssoc(val, Pow2(m), Pow2(k));
  }

  /** The number of leading zeros of a word; 64 for zero. */
  ghost predicate IsLeadingZeros(val: U64, n: nat) {
    if val == 0 then n == 64 else n < 64 && TWO63 <= val * Pow2(n) < TWO64
  }

  method LeadingZeros64(val: U64) returns (n: nat)
    ensures IsLeadingZeros(val, n)
  {
    n := 0;
    if val == 0 {
      return 64;
    }
    var v := val;
    while !Negative(v)
      invariant 0 < v < TWO64 && v == val * Pow2(n) && n < 64
      decreases TWO64 - v
    {
      Extend(val, n, 1);
      n, v := n + 1, v * 2;
      if n == 64 {
        assert Pow2(64) == TWO64 by { Pow2Words(); }
        MulLe(1, val, TWO64);
      }
    }
  }
}
