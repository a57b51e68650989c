/**
 Procedure linkage: CALL, SAVE, RESTORE and RET frames on an upward-growing stack. Words are
 unsigned 32-bit integers and address arithmetic wraps.
 */
module CpuLinkage {

  import opened CpuState
  import Ram

  const LIMIT: int := 0x1_0000_0000

  type Word = Ram.Word

  /** Memory by words: frames are word aligned. */
  type Memory = map<Word, Word>

  function Wrap(x: int): Word { x % LIMIT }

  function Read(m: Memory, a: Word): Word { if a in m then m[a] else 0 }

  type Machine = State<Word, Memory>

  type Context = m: Machine | |m.regs| == 16 witness State(seq(16, _ => 0), map[])

  // ------------------------------------------------------------ the four instructions

  /** CALL: the return address and the old argument pointer go on the stack. */
  function Call(m: Context, argument: Word, target: Word, length: Word): Context {
    var sp: int, pc: int := m.regs[SP], m.regs[PC];
    var mem := m.mem[Wrap(sp + 4) := m.regs[AP]][sp := Wrap(pc + length)];
    State(m.regs[SP := Wrap(sp + 8)][PC := target][AP := argument], mem)
  }

  /** Registers r to 8, to consecutive words from a. */
  function StoreFrom(mem: Memory, regs: seq<Word>, r: nat, a: int): Memory
    requires |regs| == 16 && r <= 9
    decreases 9 - r
  {
    if r == 9 then mem else StoreFrom(mem[Wrap(a) := regs[r]], regs, r + 1, a + 4)
  }

  function LoadFrom(regs: seq<Word>, mem: Memory, r: nat, a: int): (s: seq<Word>)
    requires |regs| == 16 && r <= 9
    ensures |s| == 16
    decreases 9 - r
  {
    if r == 9 then regs else LoadFrom(regs[r := Read(mem, Wrap(a))], mem, r + 1, a + 4)
  }

  /** SAVE: FP and registers n to 8; the frame always takes 28 bytes. */
  function Save(m: Context, n: nat): Context
    requires n <= 9
  {
    var sp: int := m.regs[SP];
    var top := Wrap(sp + 28);
    State(m.regs[SP := top][FP := top], StoreFrom(m.mem[sp := m.regs[FP]], m.regs, n, sp + 4))
  }

  function Restore(m: Context, n: nat): Context
    requires n <= 9
  {
    var fp: int := m.regs[FP];
    var a := Wrap(fp - 28);
    State(LoadFrom(m.regs, m.mem, n, fp - 24)[FP := Read(m.mem, a)][SP := a], m.mem)
  }

  function Ret(m: Context): Context {
    var sp: int := m.regs[SP];
    State(m.regs[AP := Read(m.mem, Wrap(sp - 4))][PC := Read(m.mem, Wrap(sp - 8))][SP := m.regs[AP]], m.mem)
  }

  // ------------------------------------------------------------ procedures

  /** What a body does: ordinary work, with an arbitrary effect, or a procedure call. */
  datatype Activity =
    | Work(post: Context)
    | Procedure(argument: Word, target: Word, length: Word, n: nat, body: Body)

  datatype Body = Nil | Cons(head: Activity, tail: Body)

  /** CALL and SAVE, the prologue of a procedure. */
  function Enter(m: Context, argument: Word, target: Word, length: Word, n: nat): Context
    requires n <= 9
  {
    Save(Call(m, argument, target, length), n)
  }

  function Exec(m: Context, act: Activity): Context
    decreases act
  {
    match act
    case Work(post) => post
    case Procedure(argument, target, length, n, body) =>
      if n > 9 then m else Ret(Restore(ExecBody(Enter(m, argument, target, length, n), body), n))
  }

  function ExecBody(m: Context, body: Body): Context
    decreases body
  {
    match body
    case Nil => m
    case Cons(a, rest) => ExecBody(Exec(m, a), rest)
  }

  ghost predicate Below(base: int, m: Memory, t: Memory) {
    forall a: Word :: a < base ==> Read(t, a) == Read(m, a)
  }

  /**
   The body of a procedure whose frame ends at base writes at base and above only, leaves FP
   and AP as they are, and calls with SP no lower than base; the stack does not wrap around.
   */
  ghost predicate Legal(m: Context, act: Activity, base: int)
    decreases act
  {
    match act
    case Work(post) =>
      post.regs[FP] == m.regs[FP] && post.regs[AP] == m.regs[AP] && Below(base, m.mem, post.mem)
    case Procedure(argument, target, length, n, body) =>
      && 3 <= n <= 9 && base <= m.regs[SP] && m.regs[SP] + 36 < LIMIT
      && LegalBody(Enter(m, argument, target, length, n), body, m.regs[SP] + 36)
  }

  ghost predicate LegalBody(m: Context, body: Body, base: int)
    decreases body
  {
    match body
    case Nil => true
    case Cons(a, rest) => Legal(m, a, base) && LegalBody(Exec(m, a), rest, base)
  }

  /** What a caller finds when the procedure has returned. */
  predicate Returned(m: Context, argument: Word, length: Word, n: nat, t: Context) {
    && t.regs[PC] == Wrap(m.regs[PC] as int + length) && t.regs[SP] == argument
    && t.regs[FP] == m.regs[FP] && t.regs[AP] == m.regs[AP]
    && forall r :: n <= r < 9 ==> t.regs[r] == m.regs[r]
  }

  /** Every call, at every depth of recursion, returns as it should. */
  ghost predicate AllReturned(m: Context, act: Activity)
    decreases act
  {
    match act
    case Work(_) => true
    case Procedure(argument, target, length, n, body) =>
      && Returned(m, argument, length, n, Exec(m, act))
      && (n <= 9 ==> AllReturnedIn(Enter(m, argument, target, length, n), body))
  }

  ghost predicate AllReturnedIn(m: Context, body: Body)
    decreases body
  {
    match body
    case Nil => true
    case Cons(a, rest) => AllReturned(m, a) && AllReturnedIn(Exec(m, a), rest)
  }

  // ------------------------------------------------------------ frames

  lemma {:induction false} StoredElsewhere(mem: Memory, regs: seq<Word>, r: nat, a: int, x: Word)
    requires |regs| == 16 && r <= 9 && 0 <= a && a + 4 * (9 - r) <= LIMIT && (x < a || x >= a + 4 * (9 - r))
    ensures Read(StoreFrom(mem, regs, r, a), x) == Read(mem, x)
    decreases 9 - r
  {
    if r < 9 {
      StoredElsewhere(mem[Wrap(a) := regs[r]], regs, r + 1, a + 4, x);
    }
  }

  lemma {:induction false} StoredAt(mem: Memory, regs: seq<Word>, r: nat, a: int, k: nat)
    requires |regs| == 16 && r <= k < 9 && 0 <= a && a + 4 * (9 - r) <= LIMIT
    ensures Read(StoreFrom(mem, regs, r, a), a + 4 * (k - r)) == regs[k]
    decreases 9 - r
  {
    var mem1 := mem[Wrap(a) := regs[r]];
    if k == r {
      StoredElsewhere(mem1, regs, r + 1, a + 4, a);
    } else {
      StoredAt(mem1, regs, r + 1, a + 4, k);
    }
  }

  lemma {:induction false} LoadedElsewhere(regs: seq<Word>, mem: Memory, r: nat, a: int, k: nat)
    requires |regs| == 16 && r <= 9 && k < 16 && (k < r || k >= 9)
    ensures LoadFrom(regs, mem, r, a)[k] == regs[k]
    decreases 9 - r
  {
    if r < 9 {
      LoadedElsewhere(regs[r := Read(mem, Wrap(a))], mem, r + 1, a + 4, k);
    }
  }

  lemma {:induction false} LoadedAt(regs: seq<Word>, mem: Memory, r: nat, a: int, k: nat)
    requires |regs| == 16 && r <= k < 9
    ensures LoadFrom(regs, mem, r, a)[k] == Read(mem, Wrap(a + 4 * (k - r)))
    decreases 9 - r
  {
    var regs1 := regs[r := Read(mem, Wrap(a))];
    if k == r {
      LoadedElsewhere(regs1, mem, r + 1, a + 4, k);
    } else {
      LoadedAt(regs1, mem, r + 1, a + 4, k);
    }
  }

  /** The nine words a procedure keeps between sp and sp + 36. */
  ghost predicate Framed(m: Context, length: Word, n: nat, mem: Memory) {
    var sp: int := m.regs[SP];
    && sp + 36 < LIMIT
    && Read(mem, sp) == Wrap(m.regs[PC] as int + length) && Read(mem, sp + 4) == m.regs[AP]
    && Read(mem, sp + 8) == m.regs[FP]
    && forall r :: 3 <= n <= r < 9 ==> Read(mem, sp + 12 + 4 * (r - n)) == m.regs[r]
  }

  lemma CallFrames(m: Context, argument: Word, target: Word, length: Word)
    requires m.regs[SP] + 8 < LIMIT
    ensures var t, sp: int := Call(m, argument, target, length), m.regs[SP];
            && Read(t.mem, sp) == Wrap(m.regs[PC] as int + length) && Read(t.mem, sp + 4) == m.regs[AP]
            && Below(sp, m.mem, t.mem) && t.regs[SP] == sp + 8 && t.regs[AP] == argument
  {
  }

  lemma SaveFrames(m: Context, n: nat)
    requires 3 <= n <= 9 && m.regs[SP] + 28 < LIMIT
    ensures var t, sp: int := Save(m, n), m.regs[SP];
            && Read(t.mem, sp) == m.regs[FP]
            && (forall r :: n <= r < 9 ==> Read(t.mem, sp + 4 + 4 * (r - n)) == m.regs[r])
            && Below(sp, m.mem, t.mem) && t.regs[SP] == sp + 28 && t.regs[FP] == sp + 28
  {
    hide StoreFrom;
    var sp: int := m.regs[SP];
    var mem := m.mem[sp := m.regs[FP]];
    var t := Save(m, n);
    assert t.mem == StoreFrom(mem, m.regs, n, sp + 4);
    forall x: Word | x < sp + 4
      ensures Read(t.mem, x) == Read(mem, x)
    {
      StoredElsewhere(mem, m.regs, n, sp + 4, x);
    }
    forall r | n <= r < 9
      ensures Read(t.mem, sp + 4 + 4 * (r - n)) == m.regs[r]
    {
      StoredAt(mem, m.regs, n, sp + 4, r);
    }
  }

  lemma EnterFrames(m: Context, argument: Word, target: Word, length: Word, n: nat)
    requires 3 <= n <= 9 && m.regs[SP] + 36 < LIMIT
    ensures var t := Enter(m, argument, target, length, n);
            && Framed(m, length, n, t.mem) && Below(m.regs[SP], m.mem, t.mem)
            && t.regs[FP] == m.regs[SP] + 36 && t.regs[SP] == m.regs[SP] + 36 && t.regs[AP] == argument
  {
    hide StoreFrom, Read;
    CallFrames(m, argument, target, length);
    var c := Call(m, argument, target, length);
    SaveFrames(c, n);
    assert c.regs[FP] == m.regs[FP] && forall r :: n <= r < 9 ==> c.regs[r] == m.regs[r];
  }

  /** RESTORE and RET undo the prologue if the frame is intact and FP and AP are the body's. */
  lemma LeaveReturns(m: Context, argument: Word, length: Word, n: nat, t: Context)
    requires 3 <= n <= 9 && Framed(m, length, n, t.mem) && t.regs[FP] == m.regs[SP] + 36 && t.regs[AP] == argument
    ensures Returned(m, argument, length, n, Ret(Restore(t, n))) && Ret(Restore(t, n)).mem == t.mem
  {
    hide LoadFrom;
    var a := m.regs[SP] + 12;
    forall r | n <= r < 9
      ensures LoadFrom(t.regs, t.mem, n, a)[r] == m.regs[r]
    {
      LoadedAt(t.regs, t.mem, n, a, r);
    }
    LoadedElsewhere(t.regs, t.mem, n, a, AP);
    LoadedElsewhere(t.regs, t.mem, n, a, PC);
    LoadedElsewhere(t.regs, t.mem, n, a, SP);
  }

  lemma FramedKept(m: Context, length: Word, n: nat, mem: Memory, t: Memory)
    requires Framed(m, length, n, mem) && Below(m.regs[SP] + 36, mem, t)
    ensures Framed(m, length, n, t)
  {
    hide Read, Wrap;
  }

  lemma BelowTrans(base: int, a: Memory, b: Memory, c: Memory)
    requires Below(base, a, b) && Below(base, b, c)
    ensures Below(base, a, c)
  {
    hide Read;
  }

  lemma BelowLess(base: int, top: int, a: Memory, b: Memory)
    requires Below(top, a, b) && base <= top
    ensures Below(base, a, b)
  {
    hide Read;
  }

  /**
   To any depth of recursion, every procedure returns to the instruction after its CALL with
   SP at the argument pointer, and with FP, AP and registers n to 8 as they were.
   */
  lemma {:induction false} CallsReturn(m: Context, act: Activity, base: int)
    requires Legal(m, act, base)
    ensures AllReturned(m, act) && Below(base, m.mem, Exec(m, act).mem)
    ensures Exec(m, act).regs[FP] == m.regs[FP] && Exec(m, act).regs[AP] == m.regs[AP]
    decreases act
  {
    hide Read, Enter, Ret, Restore, Framed, Below;
    match act
    case Work(_) =>
    case Procedure(argument, target, length, n, body) =>
      var m1 := Enter(m, argument, target, length, n);
      var m2 := ExecBody(m1, body);
      var top := m.regs[SP] + 36;
      EnterFrames(m, argument, target, length, n);
      BodiesReturn(m1, body, top);
      FramedKept(m, length, n, m1.mem, m2.mem);
      LeaveReturns(m, argument, length, n, m2);
      BelowLess(base, m.regs[SP], m.mem, m1.mem);
      BelowLess(base, top, m1.mem, m2.mem);
      BelowTrans(base, m.mem, m1.mem, m2.mem);
  }

  lemma {:induction false} BodiesReturn(m: Context, body: Body, base: int)
    requires LegalBody(m, body, base)
    ensures AllReturnedIn(m, body) && Below(base, m.mem, ExecBody(m, body).mem)
    ensures ExecBody(m, body).regs[FP] == m.regs[FP] && ExecBody(m, body).regs[AP] == m.regs[AP]
    decreases body
  {
    hide Read, Enter, Ret, Restore, Legal, AllReturned;
    match body
    case Nil =>
    case Cons(a, rest) =>
      CallsReturn(m, a, base);
      BodiesReturn(Exec(m, a), rest, base);
      BelowTrans(base, m.mem, Exec(m, a).mem, ExecBody(m, body).mem);
  }

  /**
   Why n must be at least 3: SAVE with a lower n runs past its 28 bytes, and a body that writes
   only above its frame, at its stack pointer, decides what RESTORE puts in register n + 6.
   */
  lemma ShallowSaveLoses(m: Context, argument: Word, target: Word, length: Word, n: nat, v: Word)
    requires n < 3 && m.regs[SP] + 36 < LIMIT
    ensures var m1 := Enter(m, argument, target, length, n);
            var post := State(m1.regs, m1.mem[m1.regs[SP] := v]);
            && m1.regs[SP] == m.regs[SP] + 36 && Legal(m1, Work(post), m.regs[SP] + 36)
            && Ret(Restore(post, n)).regs[n + 6] == v
  {
    hide StoreFrom, LoadFrom;
    var m1 := Enter(m, argument, target, length, n);
    var post := State(m1.regs, m1.mem[m1.regs[SP] := v]);
    var fp: int := m1.regs[FP];
    LoadedAt(post.regs, post.mem, n, fp - 24, n + 6);
  }

  // ------------------------------------------------------------ in place

  class Cpu {
    const R: array<Word>
    var mem: Memory

    constructor (memory: Memory)
      ensures Ok() && fresh(R) && mem == memory
    {
      R := new Word[16](_ => 0);
      mem := memory;
    }

    predicate Ok() { R.Length == 16 }

    ghost function Abs(): Context
      requires Ok()
      reads this, R
    {
      var m: Machine := State(R[..], mem);
      m
    }

    method DoCall(argument: Word, target: Word, length: Word)
      requires Ok()
      modifies this`mem, R
      ensures Abs() == Call(old(Abs()), argument, target, length)
    {
      hide Wrap;
      var sp: int, pc: int := R[SP], R[PC];
      mem := mem[Wrap(sp + 4) := R[AP]];
      mem := mem[sp := Wrap(pc + length)];
      R[SP] := Wrap(sp + 8);
      R[PC] := target;
      R[AP] := argument;
      assert R[..] == Call(old(Abs()), argument, target, length).regs;
    }

    method DoSave(n: nat)
      requires Ok() && n <= 9
      modifies this`mem, R
      ensures Abs() == Save(old(Abs()), n)
    {
      hide Wrap;
      var sp: int := R[SP];
      mem := mem[sp := R[FP]];
      var a, b := n, 4;
      while a < 9
        invariant n <= a <= 9 && b == 4 + 4 * (a - n) && R[..] == old(R[..])
        invariant StoreFrom(mem, R[..], a, sp + b) == StoreFrom(old(mem)[sp := R[FP]], R[..], n, sp + 4)
      {
        mem := mem[Wrap(sp + b) := R[a]];
        a, b := a + 1, b + 4;
      }
      R[SP] := Wrap(sp + 28);
      R[FP] := R[SP];
      assert R[..] == Save(old(Abs()), n).regs;
    }

    method DoRestore(n: nat)
      requires Ok() && n <= 9
      modifies R
      ensures Abs() == Restore(old(Abs()), n)
    {
      hide Wrap, Read;
      var fp: int := R[FP];
      var a := Wrap(fp - 28);
      var b := Read(mem, a);
      var c := fp - 24;
      var d := n;
      while d < 9
        invariant n <= d <= 9 && c == fp - 24 + 4 * (d - n)
        invariant LoadFrom(R[..], mem, d, c) == LoadFrom(old(R[..]), mem, n, fp - 24)
      {
        ghost var regs: seq<Word> := R[..];
        R[d] := Read(mem, Wrap(c));
        assert R[..] == regs[d := Read(mem, Wrap(c))];
        d, c := d + 1, c + 4;
      }
      ghost var regs: seq<Word> := R[..];
      R[FP] := b;
      R[SP] := a;
      assert R[..] == regs[FP := b][SP := a];
    }

    method DoRet()
      requires Ok()
      modifies R
      ensures Abs() == Ret(old(Abs()))
    {
      hide Wrap, Read;
      var a := R[AP];
      var sp: int := R[SP];
      var b := Read(mem, Wrap(sp - 4));
      var c := Read(mem, Wrap(sp - 8));
      R[AP] := b;
      R[PC] := c;
      R[SP] := a;
      assert R[..] == Ret(old(Abs())).regs;
    }
  }
}
