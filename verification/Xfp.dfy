/**
 Extended-precision operands of the math accelerator, their exact values, and the
 status conditions its routines raise.
 */
module Xfp {
  import opened Powers

  /** Sign, biased exponent and significand; `sticky` remembers a non-zero discarded tail. */
  datatype Xfp = Xfp(sign: bool, exp: nat, frac: U64, sticky: bool)

  datatype RoundMode = Nearest | PlusInf | MinusInf | Zero

  const EXP_MAX: nat := 0x7fff
  const BIAS: nat := 0x3fff

  predicate Finite(x: Xfp) {
    x.exp < EXP_MAX
  }

  /** Normalized, or subnormal with the explicit integer bit clear. */
  predicate Canonical(x: Xfp) {
    && Finite(x)
    && (x.exp == 0 <==> x.frac < TWO63)
  }

  predicate IsZero(x: Xfp) {
    x.exp == 0 && x.frac == 0
  }

  /** The exponent that scales the significand: subnormals share that of the smallest normals. */
  function ScaleExp(x: Xfp): (e: nat)
    ensures e >= 1
  {
    if x.exp == 0 then 1 else x.exp
  }

  /** One unit in the last place. */
  function Ulp(x: Xfp): nat {
    Pow2(ScaleExp(x) - 1)
  }

  /**
   The exact magnitude of a finite operand, counted in units of the smallest subnormal
   (2^-16445): every finite extended value is an integer in this unit.
   */
  function Mag(x: Xfp): nat {
    x.frac * Ulp(x)
  }

  function SignedMag(x: Xfp): int {
    if x.sign then -(Mag(x) as int) else Mag(x)
  }

  /** 16445: products and quotients are re-scaled by 2^UNIT_SHIFT to return to Mag's unit. */
  const UNIT_SHIFT: nat := BIAS - 1 + 63

  /**
   `x` is the exact non-negative value num/den cut off after its 64th significant bit, with
   the sticky flag telling whether anything was cut off.
   */
  predicate Truncates(x: Xfp, num: nat, den: nat) {
    && Mag(x) * den <= num < (Mag(x) + Ulp(x)) * den
    && (x.sticky <==> Mag(x) * den != num)
  }

  /** Conditions a routine can raise, each with a sticky bit and a mask bit in the ASR. */
  datatype Cond = Inexact | Overflow | Underflow | IntOverflow | DivideByZero | Invalid

  datatype AsrBit =
    | PS | OS | US | IO | QS | IS          // sticky condition bits
    | PM | OM | UM | QM | IM               // mask bits
    | ECP | NTNC                           // exception present, non-trapping NaN control

  function StickyBit(c: Cond): AsrBit {
    match c
    case Inexact => PS
    case Overflow => OS
    case Underflow => US
    case IntOverflow => IO
    case DivideByZero => QS
    case Invalid => IS
  }

  /** Integer overflow is reported under the overflow mask. */
  function MaskBit(c: Cond): AsrBit {
    match c
    case Inexact => PM
    case Overflow => OM
    case Underflow => UM
    case IntOverflow => OM
    case DivideByZero => QM
    case Invalid => IM
  }

  /** The accelerator's status: the ASR bits and the pending non-trapping NaN request. */
  class Mau {
    var asr: set<AsrBit>
    var ntnan: bool

    constructor ()
      ensures asr == {} && !ntnan
    {
      asr, ntnan := {}, false;
    }

    /** Record one condition; an enabled mask bit also raises the exception-present bit. */
    method Exc(c: Cond)
      modifies this
      ensures StickyBit(c) in asr && old(asr) <= asr <= old(asr) + {StickyBit(c), ECP}
      ensures ECP in asr <==> ECP in old(asr) || Enabled(c, old(asr))
      ensures ntnan == (old(ntnan) || (c == Invalid && IM !in old(asr) && NTNC !in old(asr)))
    {
      asr := asr + {StickyBit(c)};
      if c == Invalid && IM !in asr {
        if NTNC in asr {
          asr := asr + {ECP};
        } else {
          ntnan := true;
        }
        return;
      }
      if MaskBit(c) in asr {
        asr := asr + {ECP};
      }
    }

    /** Record every condition a routine raised. */
    method Report(raised: set<Cond>)
      modifies this
      ensures asr == old(asr) + StickyBits(raised)
                     + (if exists c :: c in raised && Enabled(c, old(asr)) then {ECP} else {})
      ensures Invalid !in raised ==> ntnan == old(ntnan)
    {
      var left := raised;
      ghost var done: set<Cond> := {};
      while left != {}
        invariant raised == left + done && left !! done
        invariant asr == old(asr) + StickyBits(done)
                         + (if exists c :: c in done && Enabled(c, old(asr)) then {ECP} else {})
        invariant Invalid !in raised ==> ntnan == old(ntnan)
        decreases left
      {
        var c :| c in left;
        ghost var before := asr;
        Exc(c);
        EnabledStable(c, old(asr), before, done);
        StickyBitsAdd(done, c);
        left, done := left - {c}, done + {c};
      }
      assert done == raised;
    }
  }

  /** Whether raising `c` under status `asr` is an exception. */
  predicate Enabled(c: Cond, asr: set<AsrBit>) {
    MaskBit(c) in asr || (c == Invalid && NTNC in asr)
  }

  function StickyBits(raised: set<Cond>): set<AsrBit> {
    set c | c in raised :: StickyBit(c)
  }

  lemma StickyBitsAdd(done: set<Cond>, c: Cond)
    ensures StickyBits(done + {c}) == StickyBits(done) + {StickyBit(c)}
  {
  }

  /** Raising conditions never changes a mask. */
  lemma EnabledStable(c: Cond, asr: set<AsrBit>, later: set<AsrBit>, done: set<Cond>)
    requires later == asr + StickyBits(done) || later == asr + StickyBits(done) + {ECP}
    ensures Enabled(c, later) <==> Enabled(c, asr)
  {
  }
}
