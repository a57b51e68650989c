/**
 WE32100 process switch: saving a context in its process control block, loading another,
 block moves, and the return that resumes it. Interrupts and CALLPS nest to any depth.
 */
module CpuSwitch {

  import opened CpuState
  import opened WordMemory

  function VectorSlot(vec: Word): Word { 0x8c + 4 * vec }

  type Machine = State<Word, Memory>

  predicate Valid(m: Machine) { |m.regs| == 16 }

  // ------------------------------------------------------------ the processor status word

  predicate HasR(psw: Word) { psw & 0x100 != 0 }
  predicate HasI(psw: Word) { psw & 0x80 != 0 }
  /** The R bit of the first word, everything else of the second. */
  function WithROf(source: Word, psw: Word): Word { (psw & 0xffff_feff) | (source & 0x100) }
  function ClearTm(psw: Word): Word { psw & 0xffff_fffb }
  function ClearI(psw: Word): Word { psw & 0xffff_ff7f }
  /** ISC, TM and ET set to 0, 0, 1 before saving; to 7, 0, 3 after loading. */
  function Outgoing(psw: Word): Word { (psw & 0xffff_ff80) | 0x1 }
  function Incoming(psw: Word): Word { ((psw & 0xffff_ff80) | 0x38) | 0x3 }
  predicate Kernel(psw: Word) { (psw >> 11) & 3 == 0 }
  /** All but ET, TM, ISC and R. */
  function Lasting(psw: Word): Word { psw & 0xffff_fe80 }

  // ------------------------------------------------------------ saving and loading registers

  /** Where a register lives in a process control block. */
  datatype Slot = Slot(offset: Word, reg: nat)

  predicate Slots(l: seq<Slot>) { forall k :: 0 <= k < |l| ==> l[k].reg < 11 }

  /** Offsets and registers occur once each. */
  predicate Separate(l: seq<Slot>) {
    forall j, k :: 0 <= j < k < |l| ==> l[j].offset != l[k].offset && l[j].reg != l[k].reg
  }

  /** R0 to R8, FP and AP, in the order they are saved and restored. */
  function Saved(): (l: seq<Slot>)
    ensures |l| == 11 && Slots(l) && Separate(l)
    ensures forall r :: 0 <= r < 11 ==> l[Position(r)].reg == r
    ensures forall k :: 0 <= k < 11 ==> 20 <= l[k].offset <= 60
  {
    [Slot(24, FP), Slot(28, 0), Slot(32, 1), Slot(36, 2), Slot(40, 3), Slot(44, 4),
     Slot(48, 5), Slot(52, 6), Slot(56, 7), Slot(60, 8), Slot(20, AP)]
  }

  function Position(r: nat): nat { if r == FP then 0 else if r == AP then 10 else r + 1 }

  function StoreList(mem: Memory, p: Word, regs: seq<Word>, l: seq<Slot>): Memory
    requires |regs| == 16 && Slots(l)
    decreases |l|
  {
    if l == [] then mem else
    StoreList(Write(mem, Plus(p, l[0].offset), regs[l[0].reg]), p, regs, l[1..])
  }

  function LoadList(regs: seq<Word>, mem: Memory, p: Word, l: seq<Slot>): (r: seq<Word>)
    requires |regs| == 16 && Slots(l)
    ensures |r| == 16
    decreases |l|
  {
    if l == [] then regs else
    LoadList(regs[l[0].reg := Read(mem, Plus(p, l[0].offset))], mem, p, l[1..])
  }

  /** Storing leaves every other address alone. */
  lemma {:induction false} StoreElsewhere(mem: Memory, p: Word, regs: seq<Word>, l: seq<Slot>, a: Word)
    requires |regs| == 16 && Slots(l) && forall k :: 0 <= k < |l| ==> a != Plus(p, l[k].offset)
    ensures Read(StoreList(mem, p, regs, l), a) == Read(mem, a)
    decreases |l|
  {
    hide Read, Write, Plus;
    if l != [] {
      assert a != Plus(p, l[0].offset);
      WriteReads(mem, Plus(p, l[0].offset), regs[l[0].reg], a);
      StoreElsewhere(Write(mem, Plus(p, l[0].offset), regs[l[0].reg]), p, regs, l[1..], a);
    }
  }

  lemma {:induction false} StoredAt(mem: Memory, p: Word, regs: seq<Word>, l: seq<Slot>, k: nat)
    requires |regs| == 16 && Slots(l) && Separate(l) && k < |l|
    ensures Read(StoreList(mem, p, regs, l), Plus(p, l[k].offset)) == regs[l[k].reg]
    decreases |l|
  {
    hide Read, Write, Plus;
    var mem1 := Write(mem, Plus(p, l[0].offset), regs[l[0].reg]);
    if k == 0 {
      forall j | 0 <= j < |l[1..]|
        ensures Plus(p, l[0].offset) != Plus(p, l[1..][j].offset)
      {
        if Plus(p, l[0].offset) == Plus(p, l[1..][j].offset) {
          PlusCancel(p, l[0].offset, l[1..][j].offset);
        }
      }
      StoreElsewhere(mem1, p, regs, l[1..], Plus(p, l[0].offset));
      WriteReads(mem, Plus(p, l[0].offset), regs[l[0].reg], Plus(p, l[0].offset));
    } else {
      StoredAt(mem1, p, regs, l[1..], k - 1);
    }
  }

  lemma {:induction false} LoadElsewhere(regs: seq<Word>, mem: Memory, p: Word, l: seq<Slot>, r: nat)
    requires |regs| == 16 && Slots(l) && r < 16 && forall k :: 0 <= k < |l| ==> l[k].reg != r
    ensures LoadList(regs, mem, p, l)[r] == regs[r]
    decreases |l|
  {
    hide Read, Plus;
    if l != [] {
      LoadElsewhere(regs[l[0].reg := Read(mem, Plus(p, l[0].offset))], mem, p, l[1..], r);
    }
  }

  lemma {:induction false} LoadedReg(regs: seq<Word>, mem: Memory, p: Word, l: seq<Slot>, k: nat)
    requires |regs| == 16 && Slots(l) && Separate(l) && k < |l|
    ensures LoadList(regs, mem, p, l)[l[k].reg] == Read(mem, Plus(p, l[k].offset))
    decreases |l|
  {
    hide Read, Plus;
    var regs1 := regs[l[0].reg := Read(mem, Plus(p, l[0].offset))];
    if k == 0 {
      LoadElsewhere(regs1, mem, p, l[1..], l[0].reg);
    } else {
      LoadedReg(regs1, mem, p, l[1..], k - 1);
    }
  }

  // ------------------------------------------------------------ block moves

  /** The three registers a block move works with, and memory. */
  datatype Mover = Mover(r0: Word, r1: Word, r2: Word, mem: Memory)

  /** Copy one word. */
  function WordStep(v: Mover): Mover {
    Mover(Plus(v.r0, 4), Plus(v.r1, 4), Minus(v.r2, 1), Write(v.mem, v.r1, Read(v.mem, v.r0)))
  }

  /** Copy r2 words from r0 to r1. */
  function MoveWords(v: Mover): Mover
    decreases v.r2
  {
    if v.r2 == 0 then v else
    MoveWords(WordStep(v))
  }

  /** Fetch the destination of the block whose size is in r2. */
  function Aim(v: Mover): Mover { v.(r0 := Plus(v.r0, 4), r1 := Read(v.mem, v.r0)) }

  function NextBlock(v: Mover): Mover {
    var w := MoveWords(Aim(v));
    w.(r2 := Read(w.mem, w.r0), r0 := Plus(w.r0, 4))
  }

  /** Blocks until one of size zero, at most n of them. */
  function MoveBlocks(v: Mover, n: nat): Mover
    decreases n
  {
    if v.r2 == 0 || n == 0 then v else MoveBlocks(NextBlock(v), n - 1)
  }

  function WordTargets(v: Mover): set<Loc>
    decreases v.r2
  {
    if v.r2 == 0 then {} else
    {At(v.r1)} + WordTargets(WordStep(v))
  }

  /** Every word the block moves write. */
  function BlockTargets(v: Mover, n: nat): set<Loc>
    decreases n
  {
    if v.r2 == 0 || n == 0 then {} else
    WordTargets(Aim(v)) + BlockTargets(NextBlock(v), n - 1)
  }

  lemma {:induction false} MoveWordsFrame(v: Mover, a: Word)
    requires At(a) !in WordTargets(v)
    ensures Read(MoveWords(v).mem, a) == Read(v.mem, a)
    decreases v.r2
  {
    hide Read, Write, Plus;
    if v.r2 != 0 {
      WriteReads(v.mem, v.r1, Read(v.mem, v.r0), a);
      MoveWordsFrame(WordStep(v), a);
    }
  }

  lemma {:induction false} MoveBlocksFrame(v: Mover, n: nat, a: Word)
    requires At(a) !in BlockTargets(v, n)
    ensures Read(MoveBlocks(v, n).mem, a) == Read(v.mem, a)
    decreases n
  {
    hide Read, Write, MoveWords, WordTargets;
    if v.r2 != 0 && n > 0 {
      MoveWordsFrame(Aim(v), a);
      MoveBlocksFrame(NextBlock(v), n - 1, a);
    }
  }

  // ------------------------------------------------------------ the microsequences

  function Switch1(m: Machine, newPcbp: Word): Machine
    requires Valid(m)
  {
    var p := m.regs[PCBP];
    var mem1 := Write(m.mem, Plus(p, 4), m.regs[PC]);
    var psw := WithROf(Read(mem1, newPcbp), m.regs[PSW]);
    var mem3 := Write(Write(mem1, p, psw), Plus(p, 8), m.regs[SP]);
    var regs := m.regs[PSW := psw];
    if HasR(psw) then State(regs[FP := Plus(p, 52)], StoreList(mem3, p, regs, Saved()))
    else State(regs, mem3)
  }

  function Switch2(m: Machine, newPcbp: Word): (r: Machine)
    requires Valid(m)
    ensures Valid(r)
  {
    var psw := ClearTm(Read(m.mem, newPcbp));
    var regs := m.regs[PC := Read(m.mem, Plus(newPcbp, 4))][SP := Read(m.mem, Plus(newPcbp, 8))];
    if HasI(psw) then m.(regs := regs[PSW := ClearI(psw)][PCBP := Plus(newPcbp, 12)])
    else m.(regs := regs[PSW := psw][PCBP := newPcbp])
  }

  /** The block list follows the save area of the block just loaded. */
  function BlockStart(m: Machine): Mover
    requires Valid(m)
  {
    var r0 := Plus(m.regs[PCBP], 64);
    Mover(Plus(r0, 4), m.regs[1], Read(m.mem, r0), m.mem)
  }

  function Switch3(m: Machine, n: nat): (r: Machine)
    requires Valid(m)
    ensures Valid(r)
  {
    if HasR(m.regs[PSW]) then
      var v := MoveBlocks(BlockStart(m), n);
      State(m.regs[0 := Plus(v.r0, 4)][1 := v.r1][2 := v.r2], v.mem)
    else m
  }

  /** The words Switch3 writes, and whether n blocks are enough for it to end. */
  function Targets3(m: Machine, n: nat): set<Loc>
    requires Valid(m)
  {
    if HasR(m.regs[PSW]) then BlockTargets(BlockStart(m), n) else {}
  }

  predicate Ends3(m: Machine, n: nat)
    requires Valid(m)
  {
    HasR(m.regs[PSW]) ==> MoveBlocks(BlockStart(m), n).r2 == 0
  }

  function PushIsp(m: Machine, w: Word): Machine
    requires Valid(m)
  {
    State(m.regs[ISP := Plus(m.regs[ISP], 4)], Write(m.mem, m.regs[ISP], w))
  }

  datatype Kind = CallPs | Interrupt(vec: Word)

  /** The new process control block: in R0 for CALLPS, in the vector table for an interrupt. */
  function NewPcbp(m: Machine, kind: Kind): Word
    requires Valid(m)
  {
    match kind
    case CallPs => m.regs[0]
    case Interrupt(vec) => Read(m.mem, VectorSlot(vec))
  }

  /** What PC the suspended context is to be resumed at. */
  function ResumePc(m: Machine, kind: Kind): Word
    requires Valid(m)
  {
    if kind.CallPs? then Plus(m.regs[PC], 2) else m.regs[PC]
  }

  function Suspend(m: Machine, kind: Kind): (r: Machine)
    requires Valid(m)
    ensures Valid(r)
  {
    var a := NewPcbp(m, kind);
    var m1 := PushIsp(m, m.regs[PCBP]);
    Switch1(m1.(regs := m1.regs[PC := ResumePc(m, kind)][PSW := Outgoing(m.regs[PSW])]), a)
  }

  /** Up to the block moves. */
  function Enter(m: Machine, kind: Kind): (r: Machine)
    requires Valid(m)
    ensures Valid(r)
  {
    var m2 := Switch2(Suspend(m, kind), NewPcbp(m, kind));
    m2.(regs := m2.regs[PSW := Incoming(m2.regs[PSW])])
  }

  function SwitchIn(m: Machine, kind: Kind, n: nat): (r: Machine)
    requires Valid(m)
    ensures Valid(r)
  {
    Switch3(Enter(m, kind), n)
  }

  /** RETPS up to the block moves. The R bit written into the old PSW is overwritten at once. */
  function Leave(m: Machine): (r: Machine)
    requires Valid(m)
    ensures Valid(r)
  {
    var isp := Minus(m.regs[ISP], 4);
    var a := Read(m.mem, isp);
    var psw := WithROf(Read(m.mem, a), m.regs[PSW]);
    Switch2(m.(regs := m.regs[ISP := isp][PSW := psw]), a)
  }

  function RetPs(m: Machine, n: nat): (r: Machine)
    requires Valid(m)
    ensures Valid(r)
  {
    var a := Read(m.mem, Minus(m.regs[ISP], 4));
    var m2 := Switch3(Leave(m), n);
    if HasR(m2.regs[PSW]) then m2.(regs := LoadList(m2.regs, m2.mem, a, Saved())) else m2
  }

  // ------------------------------------------------------------ what a suspension leaves in memory

  /** The words of a process control block that a suspension writes. */
  function Area(p: Word): set<Loc> {
    {At(p), At(Plus(p, 4)), At(Plus(p, 8))} + set k | 0 <= k < 11 :: At(Plus(p, Saved()[k].offset))
  }

  lemma HeadApart(p: Word)
    ensures p != Plus(p, 4) && p != Plus(p, 8) && Plus(p, 4) != Plus(p, 8)
    ensures forall k :: 0 <= k < 11 ==>
      var a := Plus(p, Saved()[k].offset); a != p && a != Plus(p, 4) && a != Plus(p, 8)
  {
    hide Plus, Saved;
    PlusZero(p);
    forall x: Word, y: Word | Plus(p, x) == Plus(p, y)
      ensures x == y
    {
      PlusCancel(p, x, y);
    }
  }

  /** Both kinds of outgoing word: what Switch1 puts in the block of the suspended context. */
  lemma Switch1Saves(m: Machine, newPcbp: Word)
    requires Valid(m)
    ensures var p, t := m.regs[PCBP], Switch1(m, newPcbp);
            && Valid(t) && t.regs[PCBP] == p && t.regs[ISP] == m.regs[ISP]
            && Read(t.mem, p) == t.regs[PSW] && Lasting(t.regs[PSW]) == Lasting(m.regs[PSW])
            && Read(t.mem, Plus(p, 4)) == m.regs[PC] && Read(t.mem, Plus(p, 8)) == m.regs[SP]
  {
    hide Read, Write, Plus, Saved, HasR, WithROf, Lasting, StoreList;
    var p := m.regs[PCBP];
    HeadApart(p);
    var mem1 := Write(m.mem, Plus(p, 4), m.regs[PC]);
    var psw := WithROf(Read(mem1, newPcbp), m.regs[PSW]);
    var mem2 := Write(mem1, p, psw);
    var mem3 := Write(mem2, Plus(p, 8), m.regs[SP]);
    LastingR(Read(mem1, newPcbp), m.regs[PSW]);
    WriteReads(m.mem, Plus(p, 4), m.regs[PC], Plus(p, 4));
    WriteReads(mem1, p, psw, Plus(p, 4));
    WriteReads(mem2, Plus(p, 8), m.regs[SP], Plus(p, 4));
    WriteReads(mem2, Plus(p, 8), m.regs[SP], p);
    if HasR(psw) {
      var regs := m.regs[PSW := psw];
      StoreElsewhere(mem3, p, regs, Saved(), p);
      StoreElsewhere(mem3, p, regs, Saved(), Plus(p, 4));
      StoreElsewhere(mem3, p, regs, Saved(), Plus(p, 8));
    }
  }

  /** With R set in the saved PSW, R0 to R8, FP and AP are in the block too. */
  lemma Switch1SavesRegs(m: Machine, newPcbp: Word, r: nat)
    requires Valid(m) && r < 11
    ensures var p, t := m.regs[PCBP], Switch1(m, newPcbp);
            HasR(t.regs[PSW]) ==> Read(t.mem, Plus(p, Saved()[Position(r)].offset)) == m.regs[r]
  {
    hide Read, Write, Plus, Saved, HasR, WithROf, StoreList;
    var p := m.regs[PCBP];
    var mem1 := Write(m.mem, Plus(p, 4), m.regs[PC]);
    var psw := WithROf(Read(mem1, newPcbp), m.regs[PSW]);
    var mem3 := Write(Write(mem1, p, psw), Plus(p, 8), m.regs[SP]);
    if HasR(psw) {
      StoredAt(mem3, p, m.regs[PSW := psw], Saved(), Position(r));
    }
  }

  /** Nothing outside the block is written. */
  lemma Switch1Frame(m: Machine, newPcbp: Word, a: Word)
    requires Valid(m) && At(a) !in Area(m.regs[PCBP])
    ensures Read(Switch1(m, newPcbp).mem, a) == Read(m.mem, a)
  {
    hide Read, Write, Plus, Saved, HasR, WithROf, StoreList;
    var p := m.regs[PCBP];
    var mem1 := Write(m.mem, Plus(p, 4), m.regs[PC]);
    var psw := WithROf(Read(mem1, newPcbp), m.regs[PSW]);
    var mem2 := Write(mem1, p, psw);
    WriteReads(m.mem, Plus(p, 4), m.regs[PC], a);
    WriteReads(mem1, p, psw, a);
    WriteReads(mem2, Plus(p, 8), m.regs[SP], a);
    if HasR(psw) {
      forall k | 0 <= k < 11
        ensures a != Plus(p, Saved()[k].offset)
      {
        assert At(Plus(p, Saved()[k].offset)) in Area(p);
      }
      StoreElsewhere(Write(mem2, Plus(p, 8), m.regs[SP]), p, m.regs[PSW := psw], Saved(), a);
    }
  }

  lemma LastingR(source: Word, psw: Word)
    ensures Lasting(WithROf(source, psw)) == Lasting(psw)
  {
  }

  lemma LastingOutgoing(psw: Word)
    ensures Lasting(Outgoing(psw)) == Lasting(psw) && HasI(Outgoing(psw)) == HasI(psw)
  {
  }
}
