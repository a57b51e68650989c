/** 32-bit words and word-addressed memory. Word accesses that are not aligned fault. */
module WordMemory {

  type Word = bv32

  /** A word address. */
  datatype Loc = At(address: Word)

  type Memory = map<Loc, Word>

  function Read(m: Memory, a: Word): Word {
    if At(a) in m then m[At(a)] else 0
  }

  function Write(m: Memory, a: Word, w: Word): Memory {
    m[At(a) := w]
  }

  lemma WriteReads(m: Memory, a: Word, w: Word, x: Word)
    ensures x != a ==> Read(Write(m, a, w), x) == Read(m, x)
    ensures Read(Write(m, a, w), a) == w
  {
  }

  /** Address arithmetic wraps at 32 bits. */
  function Plus(a: Word, b: Word): Word { a + b }
  function Minus(a: Word, b: Word): Word { a - b }

  predicate IsSum(s: Word, a: Word, b: Word) { s == a + b }

  lemma PlusIsSum(a: Word, b: Word)
    ensures IsSum(Plus(a, b), a, b)
  {
  }

  lemma SumCancel(s: Word, p: Word, x: Word, y: Word)
    requires IsSum(s, p, x) && IsSum(s, p, y)
    ensures x == y
  {
  }

  lemma PlusCancel(p: Word, x: Word, y: Word)
    requires Plus(p, x) == Plus(p, y)
    ensures x == y
  {
    hide Plus, IsSum;
    PlusIsSum(p, x);
    PlusIsSum(p, y);
    SumCancel(Plus(p, x), p, x, y);
  }

  lemma SumMinus(s: Word, p: Word, x: Word)
    requires IsSum(s, p, x)
    ensures Minus(s, x) == p
  {
  }

  lemma PlusMinus(p: Word, x: Word)
    ensures Minus(Plus(p, x), x) == p
  {
    hide Plus, IsSum, Minus;
    PlusIsSum(p, x);
    SumMinus(Plus(p, x), p, x);
  }

  lemma MinusOne(x: Word)
    requires x != 0
    ensures Minus(x, 1) < x
  {
  }

  lemma PlusZero(p: Word)
    ensures Plus(p, 0) == p
  {
  }
}
