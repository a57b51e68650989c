/**
 Properly nested process switches, to any depth and in any number: every suspended context
 is resumed as it was.
 */
module CpuNesting {

  import opened CpuState
  import opened WordMemory
  import opened CpuSwitch

  type Context = m: Machine | Valid(m) witness State(seq(16, _ => 0), map[])

  /** What happens on the processor between two points of one context: ordinary work, with an
   arbitrary effect, or a switch to another context that runs and returns. */
  datatype Activity =
    | Work(post: Context)
    | Switched(kind: Kind, blocksIn: nat, inner: Activities, blocksOut: nat)

  datatype Activities = Nil | Cons(head: Activity, tail: Activities)

  function Exec(m: Context, act: Activity): Context
    decreases act
  {
    match act
    case Work(post) => post
    case Switched(kind, n, inner, k) => RetPs(ExecAll(SwitchIn(m, kind, n), inner), k)
  }

  function ExecAll(m: Context, acts: Activities): Context
    decreases acts
  {
    match acts
    case Nil => m
    case Cons(a, rest) => ExecAll(Exec(m, a), rest)
  }

  // ------------------------------------------------------------ the hypotheses

  ghost predicate Intact(kept: set<Loc>, m: Memory, t: Memory) {
    forall a: Word :: At(a) in kept ==> Read(t, a) == Read(m, a)
  }

  /** Where the context goes when it is suspended: its block and a word of the interrupt stack. */
  function Footprint(m: Context): set<Loc> {
    Area(m.regs[PCBP]) + {At(m.regs[ISP])}
  }

  /**
   The switch respects the words in kept, which hold contexts suspended earlier: the block of
   this context, the interrupt stack word and all block moves lie elsewhere; the new block is
   not the old one; no instruction faults; block lists end; the saved I bit is clear.
   */
  ghost predicate Legal(m: Context, act: Activity, kept: set<Loc>)
    decreases act
  {
    match act
    case Work(post) =>
      post.regs[ISP] == m.regs[ISP] && Intact(kept, m.mem, post.mem)
    case Switched(kind, n, inner, k) =>
      var m1 := SwitchIn(m, kind, n);
      var m2 := ExecAll(m1, inner);
      && (kind.CallPs? ==> Kernel(m.regs[PSW])) && Kernel(m2.regs[PSW]) && !HasI(m.regs[PSW])
      && At(m.regs[ISP]) !in Area(m.regs[PCBP]) && At(NewPcbp(m, kind)) !in Footprint(m)
      && Footprint(m) !! kept
      && Ends3(Enter(m, kind), n) && Targets3(Enter(m, kind), n) !! kept + Footprint(m)
      && LegalAll(m1, inner, kept + Footprint(m))
      && Ends3(Leave(m2), k) && Targets3(Leave(m2), k) !! kept + Area(m.regs[PCBP])
  }

  ghost predicate LegalAll(m: Context, acts: Activities, kept: set<Loc>)
    decreases acts
  {
    match acts
    case Nil => true
    case Cons(a, rest) => Legal(m, a, kept) && LegalAll(Exec(m, a), rest, kept)
  }

  // ------------------------------------------------------------ the conclusion

  /** The context suspended in m and running again in t. */
  ghost predicate Resumed(m: Context, kind: Kind, t: Context) {
    && t.regs[PC] == ResumePc(m, kind) && t.regs[SP] == m.regs[SP]
    && t.regs[PCBP] == m.regs[PCBP] && t.regs[ISP] == m.regs[ISP]
    && Lasting(t.regs[PSW]) == Lasting(m.regs[PSW])
    && HasR(t.regs[PSW]) == HasR(Read(m.mem, NewPcbp(m, kind)))
    && (HasR(Read(m.mem, NewPcbp(m, kind))) ==> forall r :: 0 <= r < 11 ==> t.regs[r] == m.regs[r])
  }

  /** Every switch of the activity, at every depth, resumes the context it suspended. */
  ghost predicate AllResumed(m: Context, act: Activity)
    decreases act
  {
    match act
    case Work(_) => true
    case Switched(kind, n, inner, _) =>
      Resumed(m, kind, Exec(m, act)) && AllResumedIn(SwitchIn(m, kind, n), inner)
  }

  ghost predicate AllResumedIn(m: Context, acts: Activities)
    decreases acts
  {
    match acts
    case Nil => true
    case Cons(a, rest) => AllResumed(m, a) && AllResumedIn(Exec(m, a), rest)
  }

  // ------------------------------------------------------------ suspending

  /** The machine Switch1 starts from. */
  function Prepared(m: Context, kind: Kind): Context {
    var m1 := PushIsp(m, m.regs[PCBP]);
    m1.(regs := m1.regs[PC := ResumePc(m, kind)][PSW := Outgoing(m.regs[PSW])])
  }

  /** What the memory of a suspended context holds. */
  ghost predicate Holds(m: Context, kind: Kind, mem: Memory) {
    var p := m.regs[PCBP];
    && Read(mem, m.regs[ISP]) == p
    && Read(mem, Plus(p, 4)) == ResumePc(m, kind) && Read(mem, Plus(p, 8)) == m.regs[SP]
    && Lasting(Read(mem, p)) == Lasting(m.regs[PSW])
    && HasR(Read(mem, p)) == HasR(Read(m.mem, NewPcbp(m, kind)))
    && (HasR(Read(mem, p)) ==> forall r :: 0 <= r < 11 ==> Read(mem, Plus(p, Saved()[Position(r)].offset)) == m.regs[r])
  }

  lemma SuspendHolds(m: Context, kind: Kind)
    requires At(m.regs[ISP]) !in Area(m.regs[PCBP]) && At(NewPcbp(m, kind)) !in Footprint(m)
    ensures var t := Suspend(m, kind); Holds(m, kind, t.mem) && t.regs[ISP] == Plus(m.regs[ISP], 4)
  {
    hide Read, Write, Plus, Saved, Switch1, HasR, Lasting, Outgoing, Area, NewPcbp;
    var q := Prepared(m, kind);
    var a := NewPcbp(m, kind);
    LastingOutgoing(m.regs[PSW]);
    Switch1Saves(q, a);
    Switch1Frame(q, a, m.regs[ISP]);
    WriteReads(m.mem, m.regs[ISP], m.regs[PCBP], m.regs[ISP]);
    SuspendedR(m, kind);
    forall r | 0 <= r < 11
      ensures HasR(Switch1(q, a).regs[PSW]) ==>
                Read(Switch1(q, a).mem, Plus(q.regs[PCBP], Saved()[Position(r)].offset)) == m.regs[r]
    {
      Switch1SavesRegs(q, a, r);
    }
  }

  /** The R bit saved with the suspended context is the R bit of the context switched to. */
  lemma SuspendedR(m: Context, kind: Kind)
    requires At(NewPcbp(m, kind)) !in Footprint(m)
    ensures HasR(Suspend(m, kind).regs[PSW]) == HasR(Read(m.mem, NewPcbp(m, kind)))
  {
    hide Read, Write, Plus, Saved, HasR, WithROf, StoreList, NewPcbp, Outgoing;
    var p, a := m.regs[PCBP], NewPcbp(m, kind);
    assert At(Plus(p, 4)) in Area(p);
    var q := Prepared(m, kind);
    WriteReads(m.mem, m.regs[ISP], p, a);
    WriteReads(q.mem, Plus(p, 4), q.regs[PC], a);
    CopiedR(Read(m.mem, a), q.regs[PSW]);
  }

  lemma CopiedR(source: Word, psw: Word)
    ensures HasR(WithROf(source, psw)) == HasR(source)
  {
  }

  lemma SuspendKeeps(m: Context, kind: Kind, kept: set<Loc>)
    requires Footprint(m) !! kept
    ensures Intact(kept, m.mem, Suspend(m, kind).mem)
  {
    hide Read, Write, Plus, Switch1, Area, NewPcbp, Outgoing;
    forall a: Word | At(a) in kept
      ensures Read(Suspend(m, kind).mem, a) == Read(m.mem, a)
    {
      WriteReads(m.mem, m.regs[ISP], m.regs[PCBP], a);
      Switch1Frame(Prepared(m, kind), NewPcbp(m, kind), a);
    }
  }

  lemma Switch3Keeps(m: Context, n: nat, kept: set<Loc>)
    requires Targets3(m, n) !! kept
    ensures var t := Switch3(m, n); Intact(kept, m.mem, t.mem) && forall r :: 3 <= r < 16 ==> t.regs[r] == m.regs[r]
  {
    hide Read, Write, Plus, MoveBlocks, BlockTargets, HasR;
    if HasR(m.regs[PSW]) {
      forall a: Word | At(a) in kept
        ensures Read(Switch3(m, n).mem, a) == Read(m.mem, a)
      {
        MoveBlocksFrame(BlockStart(m), n, a);
      }
    }
  }

  /** The switch as a whole leaves the suspended context in memory and the rest of kept alone. */
  lemma SwitchInFacts(m: Context, kind: Kind, n: nat, kept: set<Loc>)
    requires At(m.regs[ISP]) !in Area(m.regs[PCBP]) && At(NewPcbp(m, kind)) !in Footprint(m)
    requires Footprint(m) !! kept && Targets3(Enter(m, kind), n) !! kept + Footprint(m)
    ensures var t := SwitchIn(m, kind, n);
            && Holds(m, kind, Suspend(m, kind).mem) && Intact(kept + Footprint(m), Suspend(m, kind).mem, t.mem)
            && Intact(kept, m.mem, t.mem) && t.regs[ISP] == Plus(m.regs[ISP], 4)
  {
    hide Read, Plus, Suspend, Holds, Area, NewPcbp, Incoming, HasI, ClearI, ClearTm, Targets3, Switch3;
    SuspendHolds(m, kind);
    SuspendKeeps(m, kind, kept);
    Switch3Keeps(Enter(m, kind), n, kept + Footprint(m));
  }

  /**
   The context switched to starts at the PC and SP in its block, with its PSW but for ISC, TM
   and ET, which say 7, 0, 3; a set I bit is cleared and moves PCBP past the initial context.
   */
  lemma SwitchEnters(m: Context, kind: Kind, n: nat)
    requires var p := NewPcbp(m, kind);
             At(p) !in Footprint(m) && At(Plus(p, 4)) !in Footprint(m) && At(Plus(p, 8)) !in Footprint(m)
    ensures var p, t := NewPcbp(m, kind), SwitchIn(m, kind, n);
            var psw := Read(m.mem, p);
            && t.regs[PC] == Read(m.mem, Plus(p, 4)) && t.regs[SP] == Read(m.mem, Plus(p, 8))
            && t.regs[PSW] == Incoming(if HasI(psw) then ClearI(ClearTm(psw)) else ClearTm(psw))
            && t.regs[PCBP] == if HasI(psw) then Plus(p, 12) else p
  {
    hide Read, Plus, Suspend, Area, NewPcbp, Incoming, HasI, ClearI, ClearTm, Switch3, Targets3, Intact;
    var p := NewPcbp(m, kind);
    SuspendKeeps(m, kind, {At(p), At(Plus(p, 4)), At(Plus(p, 8))});
    IntactAt({At(p), At(Plus(p, 4)), At(Plus(p, 8))}, m.mem, Suspend(m, kind).mem, p);
    IntactAt({At(p), At(Plus(p, 4)), At(Plus(p, 8))}, m.mem, Suspend(m, kind).mem, Plus(p, 4));
    IntactAt({At(p), At(Plus(p, 4)), At(Plus(p, 8))}, m.mem, Suspend(m, kind).mem, Plus(p, 8));
    TmKeepsI(Read(m.mem, p));
    Switch3Keeps(Enter(m, kind), n, {});
  }

  lemma IntactAt(kept: set<Loc>, m: Memory, t: Memory, a: Word)
    requires Intact(kept, m, t) && At(a) in kept
    ensures Read(t, a) == Read(m, a)
  {
    hide Read;
  }

  lemma TmKeepsI(psw: Word)
    ensures HasI(ClearTm(psw)) == HasI(psw)
  {
  }

  // ------------------------------------------------------------ resuming

  /** Holds looks only at the footprint. */
  lemma HoldsKept(m: Context, kind: Kind, mem: Memory, t: Memory)
    requires Holds(m, kind, mem) && Intact(Footprint(m), mem, t)
    ensures Holds(m, kind, t)
  {
    hide Read, Plus, Saved, HasR, Lasting, NewPcbp, ResumePc;
    var p := m.regs[PCBP];
    assert At(p) in Area(p) && At(Plus(p, 4)) in Area(p) && At(Plus(p, 8)) in Area(p);
    forall r | 0 <= r < 11
      ensures Read(t, Plus(p, Saved()[Position(r)].offset)) == Read(mem, Plus(p, Saved()[Position(r)].offset))
    {
      assert At(Plus(p, Saved()[Position(r)].offset)) in Area(p);
    }
  }

  lemma TmBits(psw: Word)
    ensures Lasting(ClearTm(psw)) == Lasting(psw) && HasR(ClearTm(psw)) == HasR(psw)
  {
  }

  lemma IBit(x: Word, y: Word)
    requires Lasting(x) == Lasting(y)
    ensures HasI(x) == HasI(y)
  {
  }

  /** RETPS finds the block of the context suspended last, and loads its PC, SP and PSW. */
  lemma LeaveFacts(m: Context, kind: Kind, m2: Context)
    requires Holds(m, kind, m2.mem) && m2.regs[ISP] == Plus(m.regs[ISP], 4) && !HasI(m.regs[PSW])
    ensures var t := Leave(m2);
            && Read(m2.mem, Minus(m2.regs[ISP], 4)) == m.regs[PCBP] && t.mem == m2.mem
            && t.regs[PC] == ResumePc(m, kind) && t.regs[SP] == m.regs[SP]
            && t.regs[PCBP] == m.regs[PCBP] && t.regs[ISP] == m.regs[ISP]
            && Lasting(t.regs[PSW]) == Lasting(m.regs[PSW])
            && HasR(t.regs[PSW]) == HasR(Read(m.mem, NewPcbp(m, kind)))
  {
    hide Read, Plus, Minus, Saved, HasR, Lasting, NewPcbp, ResumePc, WithROf, ClearTm, ClearI, HasI;
    PlusMinus(m.regs[ISP], 4);
    var psw := Read(m2.mem, m.regs[PCBP]);
    TmBits(psw);
    IBit(ClearTm(psw), m.regs[PSW]);
  }

  lemma LoadedAll(regs: seq<Word>, mem: Memory, p: Word, r: nat)
    requires |regs| == 16 && r < 16
    ensures r < 11 ==> LoadList(regs, mem, p, Saved())[r] == Read(mem, Plus(p, Saved()[Position(r)].offset))
    ensures r >= 11 ==> LoadList(regs, mem, p, Saved())[r] == regs[r]
  {
    hide Read, Plus, Saved, LoadList;
    if r < 11 {
      LoadedReg(regs, mem, p, Saved(), Position(r));
    } else {
      LoadElsewhere(regs, mem, p, Saved(), r);
    }
  }

  lemma ResumeFacts(m: Context, kind: Kind, m2: Context, k: nat, kept: set<Loc>)
    requires Holds(m, kind, m2.mem) && m2.regs[ISP] == Plus(m.regs[ISP], 4) && !HasI(m.regs[PSW])
    requires Targets3(Leave(m2), k) !! kept + Area(m.regs[PCBP])
    ensures Resumed(m, kind, RetPs(m2, k)) && Intact(kept, m2.mem, RetPs(m2, k).mem)
  {
    hide Read, Plus, Minus, Saved, HasR, Lasting, NewPcbp, ResumePc, Leave, Switch3, LoadList, Targets3;
    LeaveFacts(m, kind, m2);
    var p := m.regs[PCBP];
    Switch3Keeps(Leave(m2), k, kept + Area(p));
    var t := Switch3(Leave(m2), k);
    forall r | 0 <= r < 11
      ensures Read(t.mem, Plus(p, Saved()[Position(r)].offset)) == Read(m2.mem, Plus(p, Saved()[Position(r)].offset))
    {
      assert At(Plus(p, Saved()[Position(r)].offset)) in Area(p);
    }
    if HasR(t.regs[PSW]) {
      forall r | 0 <= r < 16
        ensures r < 11 ==> LoadList(t.regs, t.mem, p, Saved())[r] == m.regs[r]
        ensures r >= 11 ==> LoadList(t.regs, t.mem, p, Saved())[r] == t.regs[r]
      {
        LoadedAll(t.regs, t.mem, p, r);
      }
    }
  }

  // ------------------------------------------------------------ the theorem

  lemma IntactTrans(kept: set<Loc>, a: Memory, b: Memory, c: Memory)
    requires Intact(kept, a, b) && Intact(kept, b, c)
    ensures Intact(kept, a, c)
  {
    hide Read;
  }

  lemma IntactSubset(kept: set<Loc>, more: set<Loc>, a: Memory, b: Memory)
    requires Intact(more, a, b) && kept <= more
    ensures Intact(kept, a, b)
  {
    hide Read;
  }

  /**
   Any legal activity, however deeply its interrupts, CALLPS and RETPS nest, resumes every
   context it suspends with PC, SP, PCBP and ISP as they were, with R0 to R8, FP and AP
   whenever the PSW switched to has R set, and with a PSW that differs only in ET, TM, ISC
   and R. The contexts suspended before it stay intact.
   */
  lemma {:induction false} NestingResumes(m: Context, act: Activity, kept: set<Loc>)
    requires Legal(m, act, kept)
    ensures AllResumed(m, act) && Intact(kept, m.mem, Exec(m, act).mem)
    ensures Exec(m, act).regs[ISP] == m.regs[ISP]
    decreases act
  {
    hide Read, Plus, SwitchIn, RetPs, Suspend, Holds, Area, NewPcbp, HasI, Kernel, Targets3, Ends3, Enter, Leave;
    hide Intact, Footprint;
    match act
    case Work(_) =>
    case Switched(kind, n, inner, k) =>
      var more := kept + Footprint(m);
      var m1 := SwitchIn(m, kind, n);
      var m2 := ExecAll(m1, inner);
      SwitchInFacts(m, kind, n, kept);
      NestingResumesAll(m1, inner, more);
      IntactTrans(more, Suspend(m, kind).mem, m1.mem, m2.mem);
      IntactSubset(Footprint(m), more, Suspend(m, kind).mem, m2.mem);
      HoldsKept(m, kind, Suspend(m, kind).mem, m2.mem);
      ResumeFacts(m, kind, m2, k, kept);
      IntactSubset(kept, more, m1.mem, m2.mem);
      IntactTrans(kept, m.mem, m1.mem, m2.mem);
      IntactTrans(kept, m.mem, m2.mem, RetPs(m2, k).mem);
  }

  lemma {:induction false} NestingResumesAll(m: Context, acts: Activities, kept: set<Loc>)
    requires LegalAll(m, acts, kept)
    ensures AllResumedIn(m, acts) && Intact(kept, m.mem, ExecAll(m, acts).mem)
    ensures ExecAll(m, acts).regs[ISP] == m.regs[ISP]
    decreases acts
  {
    hide Read, SwitchIn, RetPs, Legal, AllResumed;
    match acts
    case Nil =>
    case Cons(a, rest) =>
      NestingResumes(m, a, kept);
      NestingResumesAll(Exec(m, a), rest, kept);
      IntactTrans(kept, m.mem, Exec(m, a).mem, ExecAll(m, acts).mem);
  }
}
