/**
 The process switch microsequences on the simulator's register file and memory, updated in
 place, each tied to its counterpart on machines.
 */
module CpuDevice {

  import opened CpuState
  import opened WordMemory
  import opened CpuSwitch

  class Cpu {
    const R: array<Word>
    var mem: Memory

    constructor (memory: Memory)
      ensures Ok() && fresh(R) && mem == memory
    {
      R := new Word[16](_ => 0);
      mem := memory;
    }

    predicate Ok() { R.Length == 16 }

    ghost function Abs(): Machine
      reads this, R
    {
      State(R[..], mem)
    }

    method IrqPushWord(w: Word)
      requires Ok()
      modifies this`mem, R
      ensures Abs() == PushIsp(old(Abs()), w)
    {
      hide Write, Plus;
      mem := Write(mem, R[ISP], w);
      R[ISP] := Plus(R[ISP], 4);
      assert R[..] == old(R[..])[ISP := Plus(old(R[ISP]), 4)];
    }

    method IrqPopWord() returns (w: Word)
      requires Ok()
      modifies R
      ensures R[..] == old(R[..])[ISP := Minus(old(R[ISP]), 4)] && w == Read(mem, R[ISP])
    {
      hide Read, Minus;
      R[ISP] := Minus(R[ISP], 4);
      w := Read(mem, R[ISP]);
    }

    /** Save the k-th of the eleven registers. */
    method SaveRegister(p: Word, k: nat)
      requires Ok() && k < 11
      modifies this`mem
      ensures StoreList(mem, p, R[..], Saved()[k + 1..]) == old(StoreList(mem, p, R[..], Saved()[k..]))
    {
      hide Write, Plus, Saved;
      var x := Saved()[k];
      assert Saved()[k..][1..] == Saved()[k + 1..];
      mem := Write(mem, Plus(p, x.offset), R[x.reg]);
    }

    /** Save R0 to R8, FP and AP in the block at p. */
    method SaveRegisters(p: Word)
      requires Ok()
      modifies this`mem
      ensures mem == StoreList(old(mem), p, R[..], Saved())
    {
      hide StoreList, Saved;
      AllSaved(mem, p, R[..]);
      SaveRegister(p, 0);
      SaveRegister(p, 1);
      SaveRegister(p, 2);
      SaveRegister(p, 3);
      SaveRegister(p, 4);
      SaveRegister(p, 5);
      SaveRegister(p, 6);
      SaveRegister(p, 7);
      SaveRegister(p, 8);
      SaveRegister(p, 9);
      SaveRegister(p, 10);
      AllSaved(mem, p, R[..]);
    }

    /** Restore the k-th of the eleven registers. */
    method LoadRegister(p: Word, k: nat)
      requires Ok() && k < 11
      modifies R
      ensures LoadList(R[..], mem, p, Saved()[k + 1..]) == old(LoadList(R[..], mem, p, Saved()[k..]))
    {
      hide Read, Plus, Saved;
      var x := Saved()[k];
      assert Saved()[k..][1..] == Saved()[k + 1..];
      R[x.reg] := Read(mem, Plus(p, x.offset));
      assert R[..] == old(R[..])[x.reg := Read(mem, Plus(p, x.offset))];
    }

    method LoadRegisters(p: Word)
      requires Ok()
      modifies R
      ensures R[..] == LoadList(old(R[..]), mem, p, Saved())
    {
      hide LoadList, Saved;
      AllLoaded(R[..], mem, p);
      LoadRegister(p, 0);
      LoadRegister(p, 1);
      LoadRegister(p, 2);
      LoadRegister(p, 3);
      LoadRegister(p, 4);
      LoadRegister(p, 5);
      LoadRegister(p, 6);
      LoadRegister(p, 7);
      LoadRegister(p, 8);
      LoadRegister(p, 9);
      LoadRegister(p, 10);
      AllLoaded(R[..], mem, p);
    }

    method ContextSwitch1(newPcbp: Word)
      requires Ok()
      modifies this`mem, R
      ensures Abs() == Switch1(old(Abs()), newPcbp)
    {
      hide Read, Write, Plus, Saved, HasR, WithROf, StoreList;
      var p := R[PCBP];
      mem := Write(mem, Plus(p, 4), R[PC]);
      R[PSW] := WithROf(Read(mem, newPcbp), R[PSW]);
      assert R[..] == old(R[..])[PSW := R[PSW]];
      mem := Write(mem, p, R[PSW]);
      mem := Write(mem, Plus(p, 8), R[SP]);
      if HasR(R[PSW]) {
        SaveRegisters(p);
        ghost var before := R[..];
        R[FP] := Plus(p, 52);
        assert R[..] == before[FP := Plus(p, 52)];
      }
    }

    method ContextSwitch2(newPcbp: Word)
      requires Ok()
      modifies R
      ensures Abs() == Switch2(old(Abs()), newPcbp)
    {
      hide Read, Plus, HasI, ClearI, ClearTm;
      R[PCBP] := newPcbp;
      R[PSW] := Read(mem, R[PCBP]);
      R[PSW] := ClearTm(R[PSW]);
      R[PC] := Read(mem, Plus(R[PCBP], 4));
      R[SP] := Read(mem, Plus(R[PCBP], 8));
      ghost var psw := ClearTm(Read(mem, newPcbp));
      ghost var regs := old(R[..])[PC := Read(mem, Plus(newPcbp, 4))][SP := Read(mem, Plus(newPcbp, 8))];
      assert R[..] == regs[PSW := psw][PCBP := newPcbp];
      if HasI(R[PSW]) {
        R[PSW] := ClearI(R[PSW]);
        R[PCBP] := Plus(R[PCBP], 12);
      }
      assert R[..] == if HasI(psw) then regs[PSW := ClearI(psw)][PCBP := Plus(newPcbp, 12)]
                      else regs[PSW := psw][PCBP := newPcbp];
    }

    ghost function Moving(): Mover
      requires Ok()
      reads this, R
    {
      Mover(R[0], R[1], R[2], mem)
    }

    method CopyWord()
      requires Ok() && R[2] != 0
      modifies this`mem, R
      ensures Moving() == WordStep(old(Moving())) && R[2] < old(R[2])
      ensures forall r :: 3 <= r < 16 ==> R[r] == old(R[r])
    {
      hide Read, Write, Plus, Minus;
      MinusOne(R[2]);
      mem := Write(mem, R[1], Read(mem, R[0]));
      R[2] := Minus(R[2], 1);
      R[0] := Plus(R[0], 4);
      R[1] := Plus(R[1], 4);
    }

    /** The inner loop: one block. */
    method MoveBlock()
      requires Ok()
      modifies this`mem, R
      ensures Moving() == MoveWords(old(Moving())) && forall r :: 3 <= r < 16 ==> R[r] == old(R[r])
    {
      hide WordStep;
      while R[2] != 0
        invariant MoveWords(Moving()) == MoveWords(old(Moving()))
        invariant forall r :: 3 <= r < 16 ==> R[r] == old(R[r])
        decreases R[2]
      {
        CopyWord();
      }
    }

    /** One round of the outer loop: destination, block, size of the next block. */
    method MoveNextBlock()
      requires Ok()
      modifies this`mem, R
      ensures Moving() == NextBlock(old(Moving())) && forall r :: 3 <= r < 16 ==> R[r] == old(R[r])
    {
      hide Read, Write, Plus, MoveWords;
      R[1] := Read(mem, R[0]);
      R[0] := Plus(R[0], 4);
      assert Moving() == Aim(old(Moving()));
      MoveBlock();
      R[2] := Read(mem, R[0]);
      R[0] := Plus(R[0], 4);
    }

    /** The outer loop: the list holds at most n blocks before the empty one that ends it. */
    method MoveAllBlocks(ghost n: nat)
      requires Ok() && MoveBlocks(Moving(), n).r2 == 0
      modifies this`mem, R
      ensures Moving() == MoveBlocks(old(Moving()), n) && forall r :: 3 <= r < 16 ==> R[r] == old(R[r])
    {
      hide NextBlock;
      ghost var left := n;
      while R[2] != 0
        invariant MoveBlocks(Moving(), left) == MoveBlocks(old(Moving()), n)
        invariant forall r :: 3 <= r < 16 ==> R[r] == old(R[r])
        decreases left
      {
        MoveNextBlock();
        left := left - 1;
      }
    }

    method ContextSwitch3(ghost n: nat)
      requires Ok() && Ends3(Abs(), n)
      modifies this`mem, R
      ensures Abs() == Switch3(old(Abs()), n)
    {
      hide Read, Plus, HasR, MoveBlocks;
      if HasR(R[PSW]) {
        R[0] := Plus(R[PCBP], 64);
        R[2] := Read(mem, R[0]);
        R[0] := Plus(R[0], 4);
        assert Moving() == BlockStart(old(Abs()));
        MoveAllBlocks(n);
        R[0] := Plus(R[0], 4);
        assert R[..] == Switch3(old(Abs()), n).regs;
      }
    }

    /** What CALLPS and a full interrupt share, once the new block is known. */
    method SwitchTo(a: Word, resumePc: Word)
      requires Ok()
      modifies this`mem, R
      ensures var m := old(Abs());
              var m1 := PushIsp(m, m.regs[PCBP]);
              var m2 := Switch2(Switch1(m1.(regs := m1.regs[PC := resumePc][PSW := Outgoing(m.regs[PSW])]), a), a);
              Abs() == m2.(regs := m2.regs[PSW := Incoming(m2.regs[PSW])])
    {
      hide Switch1, Switch2, Outgoing, Incoming, Plus, Write;
      IrqPushWord(R[PCBP]);
      R[PC] := resumePc;
      R[PSW] := Outgoing(R[PSW]);
      ghost var m1 := PushIsp(old(Abs()), old(R[PCBP]));
      assert R[..] == m1.regs[PC := resumePc][PSW := Outgoing(old(R[PSW]))];
      ContextSwitch1(a);
      ContextSwitch2(a);
      ghost var m2 := Abs();
      R[PSW] := Incoming(R[PSW]);
      assert R[..] == m2.regs[PSW := Incoming(m2.regs[PSW])];
    }

    /** CALLPS; not being in kernel level is a privileged-opcode exception. */
    method CallPs(ghost n: nat) returns (ok: bool)
      requires Ok() && Ends3(Enter(Abs(), Kind.CallPs), n)
      modifies this`mem, R
      ensures ok == old(Kernel(R[PSW])) && Abs() == if ok then SwitchIn(old(Abs()), Kind.CallPs, n) else old(Abs())
    {
      hide Switch1, Switch2, Switch3, Ends3, PushIsp, Kernel, Outgoing, Incoming, Plus;
      ok := Kernel(R[PSW]);
      if ok {
        var a := R[0];
        SwitchTo(a, Plus(R[PC], 2));
        ContextSwitch3(n);
      }
    }

    /** A full interrupt. */
    method OnInterrupt(vec: Word, ghost n: nat)
      requires Ok() && Ends3(Enter(Abs(), Interrupt(vec)), n)
      modifies this`mem, R
      ensures Abs() == SwitchIn(old(Abs()), Interrupt(vec), n)
    {
      hide Switch1, Switch2, Switch3, Ends3, PushIsp, Outgoing, Incoming, Read, VectorSlot;
      var a := Read(mem, VectorSlot(vec));
      SwitchTo(a, R[PC]);
      ContextSwitch3(n);
    }

    /** RETPS. */
    method ReturnPs(ghost n: nat) returns (ok: bool)
      requires Ok() && Ends3(Leave(Abs()), n)
      modifies this`mem, R
      ensures ok == old(Kernel(R[PSW])) && Abs() == if ok then RetPs(old(Abs()), n) else old(Abs())
    {
      hide Switch2, Switch3, Ends3, Kernel, WithROf, Read, Minus, HasR, LoadList, Saved;
      ok := Kernel(R[PSW]);
      if ok {
        var a := IrqPopWord();
        var b := Read(mem, a);
        R[PSW] := WithROf(b, R[PSW]);
        assert R[..] == old(R[..])[ISP := Minus(old(R[ISP]), 4)][PSW := WithROf(b, old(R[PSW]))];
        ContextSwitch2(a);
        assert Abs() == Leave(old(Abs()));
        ContextSwitch3(n);
        if HasR(R[PSW]) {
          LoadRegisters(a);
        }
      }
    }
  }

  lemma AllSaved(mem: Memory, p: Word, regs: seq<Word>)
    requires |regs| == 16
    ensures StoreList(mem, p, regs, Saved()[0..]) == StoreList(mem, p, regs, Saved())
    ensures StoreList(mem, p, regs, Saved()[11..]) == mem
  {
    hide Saved;
    assert Saved()[0..] == Saved() && Saved()[11..] == [];
  }

  lemma AllLoaded(regs: seq<Word>, mem: Memory, p: Word)
    requires |regs| == 16
    ensures LoadList(regs, mem, p, Saved()[0..]) == LoadList(regs, mem, p, Saved())
    ensures LoadList(regs, mem, p, Saved()[11..]) == regs
  {
    hide Saved;
    assert Saved()[0..] == Saved() && Saved()[11..] == [];
  }
}
