/**
 Powers of two and the few non-linear facts the arithmetic unit needs.

 Shifts in the source are modelled as multiplication and division by powers of two over
 unbounded integers; every place where a C word would wrap writes `% TWO64` explicitly.
 */
module Powers {

  const TWO31: nat := 0x8000_0000
  const TWO32: nat := 0x1_0000_0000
  const TWO63: nat := 0x8000_0000_0000_0000
  const TWO64: nat := 0x1_0000_0000_0000_0000
  const TWO128: nat := 0x1_0000_0000_0000_0000_0000_0000_0000_0000

  /** A 64-bit machine word. */
  type U64 = x: int | 0 <= x < TWO64

  function Pow2(n: nat): (r: nat)
    ensures r >= 1
  {
    if n == 0 then 1 else 2 * Pow2(n - 1)
  }

  lemma {:induction false} Pow2Add(m: nat, n: nat)
    ensures Pow2(m + n) == Pow2(m) * Pow2(n)
    decreases m
  {
    if m > 0 {
      Pow2Add(m - 1, n);
      assert Pow2(m + n) == 2 * Pow2(m - 1 + n);
      MulAssoc(2, Pow2(m - 1), Pow2(n));
    }
  }

  lemma MulAssoc(x: int, y: int, z: int)
    ensures x * (y * z) == (x * y) * z
  {
  }

  lemma {:induction false} Pow2Monotone(m: nat, n: nat)
    requires m <= n
    ensures Pow2(m) <= Pow2(n)
    decreases n - m
  {
    if m < n {
      Pow2Monotone(m, n - 1);
    }
  }

  /** A strictly larger exponent at least doubles the power. */
  lemma Pow2Strict(m: nat, n: nat)
    requires m < n
    ensures 2 * Pow2(m) <= Pow2(n)
  {
    Pow2Monotone(m + 1, n);
  }

  /** The powers the word formats use. */
  lemma Pow2Small()
    ensures Pow2(0) == 1 && Pow2(1) == 2 && Pow2(7) == 0x80
    ensures Pow2(8) == 0x100 && Pow2(10) == 0x400 && Pow2(11) == 0x800
    ensures Pow2(16) == 0x1_0000 && Pow2(20) == 0x10_0000
  {
  }

  lemma Pow2Words()
    ensures Pow2(31) == TWO31 && Pow2(32) == TWO32
    ensures Pow2(52) == 0x10_0000_0000_0000 && Pow2(53) == 0x20_0000_0000_0000
    ensures Pow2(62) == 0x4000_0000_0000_0000 && Pow2(63) == TWO63 && Pow2(64) == TWO64
  {
    Pow2Small();
    Pow2Add(16, 16);
    Pow2Add(32, 20);
    Pow2Add(32, 32);
    assert Pow2(64) == 2 * Pow2(63) == 4 * Pow2(62);
  }

  /** Quotient and remainder are determined by their defining inequality. */
  lemma DivUnique(x: int, d: int, q: int)
    requires d > 0
    requires q * d <= x < (q + 1) * d
    ensures x / d == q && x % d == x - q * d
  {
    var q' := x / d;
    assert q' * d + x % d == x;
    if q' < q {
      MulLe(q' + 1, q, d);
    } else if q' > q {
      MulLe(q + 1, q', d);
    }
  }

  lemma MulLe(x: int, y: int, z: int)
    requires x <= y && z >= 0
    ensures x * z <= y * z
  {
  }

  lemma MulLt(x: int, y: int, z: int)
    requires x < y && z > 0
    ensures x * z < y * z
  {
  }

  /** Cancelling a positive factor. */
  lemma MulCancelLt(x: int, y: int, z: int)
    requires x * z < y * z && z > 0
    ensures x < y
  {
    if y <= x { MulLe(y, x, z); }
  }

  lemma MulCancelLe(x: int, y: int, z: int)
    requires x * z <= y * z && z > 0
    ensures x <= y
  {
    if y < x { MulLt(y, x, z); }
  }

  lemma DivModBasics(x: int, d: int)
    requires d > 0
    ensures x == (x / d) * d + x % d && 0 <= x % d < d
  {
  }
}
