/**
 The Rev 2 unit as the simulator holds it: six cache arrays, section registers and fault
 registers, updated in place. Every operation is tied to its counterpart on states.
 */
module Mmu2Device {

  import opened Options
  import opened WordMemory
  import opened Mmu2Format
  import opened Mmu2
  import opened Mmu2Runs
  import opened Mmu2History

  function Zip(lo: seq<Word>, hi: seq<Word>): (z: seq<Entry>)
    requires |lo| == |hi|
    ensures |z| == |lo| && forall i :: 0 <= i < |z| ==> z[i] == Entry(lo[i], hi[i])
  {
    seq(|lo|, i requires 0 <= i < |lo| => Entry(lo[i], hi[i]))
  }

  function ZipPairs(left: seq<Entry>, right: seq<Entry>): (z: seq<Pair>)
    requires |left| == |right|
    ensures |z| == |left| && forall i :: 0 <= i < |z| ==> z[i] == Pair(left[i], right[i])
  {
    seq(|left|, i requires 0 <= i < |left| => Pair(left[i], right[i]))
  }

  class Mmu {
    const sdcl: array<Word>
    const sdch: array<Word>
    const pdcll: array<Word>
    const pdclh: array<Word>
    const pdcrl: array<Word>
    const pdcrh: array<Word>
    const secAddr: array<Word>
    const secLen: array<Word>
    var fcode: Word
    var faddr: Word
    var conf: Word
    var vaReg: Word
    var enabled: bool
    var mem: Memory

    constructor (memory: Memory)
      requires Total(memory)
      ensures Ok() && mem == memory && !enabled
      ensures fresh(sdcl) && fresh(sdch) && fresh(pdcll) && fresh(pdclh) && fresh(pdcrl) && fresh(pdcrh)
      ensures fresh(secAddr) && fresh(secLen)
    {
      sdcl := new Word[32](_ => 0);
      sdch := new Word[32](_ => 0);
      pdcll := new Word[32](_ => 0);
      pdclh := new Word[32](_ => 0);
      pdcrl := new Word[32](_ => 0);
      pdcrh := new Word[32](_ => 0);
      secAddr := new Word[4](_ => 0);
      secLen := new Word[4](_ => 0);
      fcode, faddr, conf, vaReg, enabled, mem := 0, 0, 0, 0, false, memory;
    }

    predicate Arrays() {
      && sdcl.Length == 32 && sdch.Length == 32 && pdcll.Length == 32 && pdclh.Length == 32
      && pdcrl.Length == 32 && pdcrh.Length == 32 && secAddr.Length == 4 && secLen.Length == 4
      && sdcl != sdch && sdcl != pdcll && sdcl != pdclh && sdcl != pdcrl && sdcl != pdcrh
      && sdcl != secAddr && sdcl != secLen
      && sdch != pdcll && sdch != pdclh && sdch != pdcrl && sdch != pdcrh && sdch != secAddr && sdch != secLen
      && pdcll != pdclh && pdcll != pdcrl && pdcll != pdcrh && pdcll != secAddr && pdcll != secLen
      && pdclh != pdcrl && pdclh != pdcrh && pdclh != secAddr && pdclh != secLen
      && pdcrl != pdcrh && pdcrl != secAddr && pdcrl != secLen
      && pdcrh != secAddr && pdcrh != secLen && secAddr != secLen
    }

    ghost function SdRows(): seq<Entry>
      requires Arrays()
      reads sdcl, sdch
    {
      Zip(sdcl[..], sdch[..])
    }

    ghost function PdRows(): seq<Pair>
      requires Arrays()
      reads pdcll, pdclh, pdcrl, pdcrh
    {
      ZipPairs(Zip(pdcll[..], pdclh[..]), Zip(pdcrl[..], pdcrh[..]))
    }

    ghost function Registers(): Env
      requires Arrays()
      reads this, secAddr, secLen
    {
      Env(secAddr[..], secLen[..], fcode, faddr, conf, vaReg, enabled, mem)
    }

    /** The state the arrays and registers stand for. */
    ghost function Abs(): State
      requires Arrays()
      reads this, sdcl, sdch, pdcll, pdclh, pdcrl, pdcrh, secAddr, secLen
    {
      State(SdRows(), PdRows(), Registers())
    }

    ghost predicate Ok()
      reads this, sdcl, sdch, pdcll, pdclh, pdcrl, pdcrh, secAddr, secLen
    {
      Arrays() && Valid(Abs())
    }

    /** Find a segment descriptor in the cache. */
    method GetSdce(va: Word) returns (found: bool, sd0: Word, sd1: Word)
      requires Ok()
      ensures var x := Abs().sd[SdRow(va)];
              found == SdHit(x, va) && (found ==> sd0 == SdceToSd0(x.hi, x.lo) && sd1 == SdceToSd1(x.hi))
    {
      hide SdRow, SdTag, SdceTag, SdGood, SdceToSd0, SdceToSd1, AlignedTables, Total;
      sd0, sd1 := 0, 0;
      var ci := SdRow(va);
      found := SdGood(sdch[ci]) && SdceTag(sdcl[ci]) == SdTag(va);
      if found {
        sd0, sd1 := SdceToSd0(sdch[ci], sdcl[ci]), SdceToSd1(sdch[ci]);
      }
    }

    /** Find a page descriptor in the cache: left side first, then right. */
    method GetPdce(va: Word) returns (found: bool, pd: Word, acc: Word)
      requires Ok()
      ensures PdLookup(Abs().pd[PdRow(va)], va) == if found then Some(PdView(pd, acc)) else None
    {
      hide PdRow, PdTag, PdcxlTag, PdGood, PdcxhToPd, PdcxlToAcc, AlignedTables, Total;
      found, pd, acc := true, 0, 0;
      var ci := PdRow(va);
      if PdGood(pdclh[ci]) && PdcxlTag(pdcll[ci]) == PdTag(va) {
        pd, acc := PdcxhToPd(pdclh[ci]), PdcxlToAcc(pdcll[ci]);
      } else if PdGood(pdcrh[ci]) && PdcxlTag(pdcrl[ci]) == PdTag(va) {
        pd, acc := PdcxhToPd(pdcrh[ci]), PdcxlToAcc(pdcrl[ci]);
      } else {
        found := false;
      }
    }

    method PutSdce(va: Word, sd0: Word, sd1: Word)
      requires Ok()
      modifies sdcl, sdch
      ensures Ok() && Abs() == PutSd(old(Abs()), va, sd0, sd1)
    {
      hide SdRow, SdToSdcl, SdToSdch, AlignedTables, Total;
      var ci := SdRow(va);
      sdcl[ci] := SdToSdcl(va, sd0);
      sdch[ci] := SdToSdch(sd0, sd1);
      assert SdRows() == old(SdRows())[ci := Entry(SdToSdcl(va, sd0), SdToSdch(sd0, sd1))];
    }

    /** Replace the left side of a row, noting that it was filled last. */
    method FillLeft(ci: nat, lo: Word, hi: Word)
      requires Arrays() && ci < 32
      modifies pdcll, pdclh
      ensures PdRows() == old(PdRows())[ci := old(PdRows())[ci].(left := Entry(lo, NoteLeft(hi)))]
    {
      hide NoteLeft;
      pdcll[ci] := lo;
      pdclh[ci] := hi;
      pdclh[ci] := NoteLeft(pdclh[ci]);
    }

    /** Replace the right side; which side was filled last is noted on the left. */
    method FillRight(ci: nat, lo: Word, hi: Word)
      requires Arrays() && ci < 32
      modifies pdclh, pdcrl, pdcrh
      ensures var p := old(PdRows())[ci];
              PdRows() == old(PdRows())[ci := Pair(p.left.(hi := NoteRight(p.left.hi)), Entry(lo, hi))]
    {
      hide NoteRight;
      pdcrl[ci] := lo;
      pdcrh[ci] := hi;
      pdclh[ci] := NoteRight(pdclh[ci]);
    }

    method PutPdce(va: Word, sd0: Word, pd: Word)
      requires Ok()
      modifies pdcll, pdclh, pdcrl, pdcrh
      ensures Ok() && Abs() == PutPd(old(Abs()), va, sd0, pd)
    {
      hide PdRow, SdToPdcxl, PdToPdcxh, PdGood, RightFilledLast, NoteLeft, NoteRight, AlignedTables, Total;
      var ci := PdRow(va);
      if !PdGood(pdclh[ci]) {
        FillLeft(ci, SdToPdcxl(va, sd0), PdToPdcxh(pd, sd0));
      } else if !PdGood(pdcrh[ci]) {
        FillRight(ci, SdToPdcxl(va, sd0), PdToPdcxh(pd, sd0));
      } else if RightFilledLast(pdclh[ci]) {
        FillLeft(ci, SdToPdcxl(va, sd0), PdToPdcxh(pd, sd0));
      } else {
        FillRight(ci, SdToPdcxl(va, sd0), PdToPdcxh(pd, sd0));
      }
    }

    method FlushSdce(va: Word)
      requires Ok()
      modifies sdch
      ensures var x := old(Abs()).sd[SdRow(va)];
              Ok() && Abs() == old(Abs()).(sd := old(Abs()).sd[SdRow(va) := if SdGood(x.hi) then Drop(x) else x])
    {
      hide SdRow, SdGood, Cleared, AlignedTables, Total;
      var ci := SdRow(va);
      if SdGood(sdch[ci]) {
        sdch[ci] := Cleared(sdch[ci]);
      }
      ghost var x := old(SdRows())[ci];
      assert SdRows() == old(SdRows())[ci := if SdGood(x.hi) then Drop(x) else x];
    }

    method FlushPdce(va: Word)
      requires Ok()
      modifies pdclh, pdcrh
      ensures var p := old(Abs()).pd[PdRow(va)];
              var p1 := if PdHit(p.left, va) then p.(left := Drop(p.left))
                        else if PdHit(p.right, va) then p.(right := Drop(p.right))
                        else p;
              Ok() && Abs() == old(Abs()).(pd := old(Abs()).pd[PdRow(va) := p1])
    {
      hide PdRow, PdGood, PdcxlTag, PdTag, Cleared, AlignedTables, Total;
      var ci := PdRow(va);
      ghost var p := old(PdRows())[ci];
      if PdGood(pdclh[ci]) && PdcxlTag(pdcll[ci]) == PdTag(va) {
        pdclh[ci] := Cleared(pdclh[ci]);
        assert PdRows() == old(PdRows())[ci := p.(left := Drop(p.left))];
      } else if PdGood(pdcrh[ci]) && PdcxlTag(pdcrl[ci]) == PdTag(va) {
        pdcrh[ci] := Cleared(pdcrh[ci]);
        assert PdRows() == old(PdRows())[ci := p.(right := Drop(p.right))];
      }
    }

    /** Clears the good bits of the eight rows of a section. */
    method FlushCacheSec(sec: nat)
      requires Ok() && sec < 4
      modifies sdch, pdclh, pdcrh
      ensures Ok() && Abs() == FlushSection(old(Abs()), sec)
    {
      hide Cleared, AlignedTables, Total;
      FlushSdRows(sec);
      FlushPdRows(sec);
      assert SdRows() == FlushSection(old(Abs()), sec).sd;
      assert PdRows() == FlushSection(old(Abs()), sec).pd;
    }

    method FlushSdRows(sec: nat)
      requires Arrays() && sec < 4
      modifies sdch
      ensures forall j :: 0 <= j < 32 ==> sdch[j] == if j / 8 == sec then Cleared(old(sdch[j])) else old(sdch[j])
    {
      hide Cleared;
      for i := 0 to 8
        invariant forall j :: 0 <= j < 32 ==>
          sdch[j] == if sec * 8 <= j < sec * 8 + i then Cleared(old(sdch[j])) else old(sdch[j])
      {
        sdch[sec * 8 + i] := Cleared(sdch[sec * 8 + i]);
      }
    }

    method FlushPdRows(sec: nat)
      requires Arrays() && sec < 4
      modifies pdclh, pdcrh
      ensures forall j :: 0 <= j < 32 ==> pdclh[j] == if j / 8 == sec then Cleared(old(pdclh[j])) else old(pdclh[j])
      ensures forall j :: 0 <= j < 32 ==> pdcrh[j] == if j / 8 == sec then Cleared(old(pdcrh[j])) else old(pdcrh[j])
    {
      hide Cleared;
      for i := 0 to 8
        invariant forall j :: 0 <= j < 32 ==>
          pdclh[j] == if sec * 8 <= j < sec * 8 + i then Cleared(old(pdclh[j])) else old(pdclh[j])
        invariant forall j :: 0 <= j < 32 ==>
          pdcrh[j] == if sec * 8 <= j < sec * 8 + i then Cleared(old(pdcrh[j])) else old(pdcrh[j])
      {
        pdclh[sec * 8 + i] := Cleared(pdclh[sec * 8 + i]);
        pdcrh[sec * 8 + i] := Cleared(pdcrh[sec * 8 + i]);
      }
    }

    /** Records a fault, if faults are being checked. */
    method RaiseFault(q: Request, code: Word)
      requires Ok()
      modifies this`fcode, this`faddr
      ensures Ok() && Abs() == Report(old(Abs()), q, Fault(code))
    {
      hide AlignedTables, Total, FaultWord;
      if q.fc {
        fcode := FaultWord(q.acc, q.cm, code);
        faddr := q.va;
      }
    }

    /** Set M or R in the segment descriptor in memory; M also in its cache row. */
    method UpdateSdBit(va: Word, modified: bool)
      requires Ok()
      modifies this`mem, sdch
      ensures Ok() && Abs() == UpdateSd(old(Abs()), va, modified)
    {
      hide SdRow, AlignedTables, Total, Section, Ssl, SdSlot, WithM, WithR;
      var ci := SdRow(va);
      var a := SdSlot(secAddr[Section(va)], Ssl(va));
      var sd0 := Read(mem, a);
      mem := Write(mem, a, if modified then WithM(sd0) else WithR(sd0));
      if modified {
        sdch[ci] := WithM(sdch[ci]);
        assert SdRows() == old(SdRows())[ci := old(SdRows())[ci].(hi := WithM(old(SdRows())[ci].hi))];
      }
      WriteTotal(old(mem), a, if modified then WithM(sd0) else WithR(sd0));
    }

    /** Set M or R in the page cache entry that matches, if one does. */
    method MarkCachedPd(va: Word, modified: bool)
      requires Arrays()
      modifies pdclh, pdcrh
      ensures PdRows() == old(PdRows())[PdRow(va) := MarkPair(old(PdRows())[PdRow(va)], va, modified)]
    {
      hide PdRow, WithM, WithR, PdGood, PdcxlTag, PdTag;
      var ci := PdRow(va);
      if PdGood(pdclh[ci]) && PdcxlTag(pdcll[ci]) == PdTag(va) {
        pdclh[ci] := if modified then WithM(pdclh[ci]) else WithR(pdclh[ci]);
      } else if PdGood(pdcrh[ci]) && PdcxlTag(pdcrl[ci]) == PdTag(va) {
        pdcrh[ci] := if modified then WithM(pdcrh[ci]) else WithR(pdcrh[ci]);
      }
    }

    /** Set M or R in the page descriptor at pdAddr in memory, and in the entry that matches. */
    method UpdatePdBit(va: Word, pdAddr: Word, modified: bool)
      requires Ok()
      modifies this`mem, pdclh, pdcrh
      ensures Ok() && Abs() == UpdatePd(old(Abs()), va, pdAddr, modified)
    {
      hide PdRow, AlignedTables, Total, WithM, WithR, MarkPair;
      var pd := Read(mem, pdAddr);
      mem := Write(mem, pdAddr, if modified then WithM(pd) else WithR(pd));
      WriteTotal(old(mem), pdAddr, if modified then WithM(pd) else WithR(pd));
      MarkCachedPd(va, modified);
    }

    /** Load a segment descriptor from memory, and cache it if faults are being checked. */
    method GetSd(q: Request) returns (failed: bool, outcome: Outcome, sd0: Word, sd1: Word)
      requires Ok()
      modifies this`fcode, this`faddr, sdcl, sdch
      ensures Ok()
      ensures var e := old(Abs()).env;
              if failed then SdFailure(e, q.va) == Some(outcome) && Abs() == Report(old(Abs()), q, outcome)
              else SdFailure(e, q.va).None? && sd0 == Sd0(e, q.va) && sd1 == Sd1(e, q.va)
                   && Abs() == if q.fc then PutSd(old(Abs()), q.va, sd0, sd1) else old(Abs())
    {
      hide AlignedTables, Total, Section, Ssl, SdSlot, SdWithin, SdValid, SdIndirect, SdPresent, SdContig, Reported;
      hide PutSd, Read, NextWord;
      failed, outcome, sd0, sd1 := true, Halted, 0, 0;
      var i := Section(q.va);
      if !SdWithin(Ssl(q.va), secLen[i]) {
        outcome := Fault(F_SDTLEN);
        RaiseFault(q, F_SDTLEN);
        return;
      }
      var a := SdSlot(secAddr[i], Ssl(q.va));
      sd0 := Read(mem, a);
      sd1 := Read(mem, NextWord(a));
      if !SdValid(sd0) {
        outcome := Fault(F_INV_SD);
        RaiseFault(q, F_INV_SD);
      } else if SdIndirect(sd0) {
        HaltReport(Abs(), q);
      } else if !SdPresent(sd0) {
        var code := if SdContig(sd0) then F_SEG_NOT_PRES else F_PDT_NOT_PRES;
        outcome := Fault(code);
        RaiseFault(q, code);
      } else {
        failed := false;
        if q.fc {
          PutSdce(q.va, sd0, sd1);
        }
      }
    }

    /** Load a page descriptor from memory, and cache it if it is present and faults are checked. */
    method GetPd(q: Request, sd0: Word, sd1: Word) returns (failed: bool, v: PdView)
      requires Ok() && PdLookup(Abs().pd[PdRow(q.va)], q.va).None?
      modifies this`fcode, this`faddr, pdcll, pdclh, pdcrl, pdcrh
      ensures Ok()
      ensures FetchPd(old(Abs()), q, sd0, sd1) ==
              if failed then PdFailed(Abs(), Fault(F_PDTLEN)) else PdInHand(Abs(), v)
    {
      hide AlignedTables, Total, PdRow, PdLookup, PdInTable, PdLoc, PdPresent, SdAcc, Reported, PutPd, Read;
      v := PdView(0, 0);
      failed := !PdInTable(sd0, q.va);
      if failed {
        RaiseFault(q, F_PDTLEN);
      } else {
        var pd := Read(mem, PdLoc(sd1, q.va));
        v := PdView(pd, SdAcc(sd0));
        if q.fc && PdPresent(pd) {
          PutPdce(q.va, sd0, pd);
        }
      }
    }

    method DecodeContiguous(q: Request, sd0: Word, sd1: Word) returns (outcome: Outcome)
      requires Ok()
      modifies this`fcode, this`faddr, this`mem, sdch
      ensures Ok() && DecodeContig(old(Abs()), q, sd0, sd1) == Decoded(Abs(), outcome)
    {
      hide AlignedTables, Total, Reported, Permits, SdAcc, Beyond, Displaced, Sot, MaxOffset, SdSegAddr, SdTrap;
      hide HasM, HasR, ConfM, ConfR, UpdateSd;
      if q.fc && !Permits(SdAcc(sd0), q.acc, q.cm) {
        outcome := Fault(F_ACC);
        RaiseFault(q, F_ACC);
      } else if Beyond(Sot(q.va), MaxOffset(sd0)) {
        outcome := Fault(F_SEG_OFFSET);
        RaiseFault(q, F_SEG_OFFSET);
      } else {
        if q.fc {
          if ConfR(conf) && !HasR(sd0) {
            UpdateSdBit(q.va, false);
          }
          if ConfM(conf) && q.acc == ACC_W && !HasM(sd0) {
            UpdateSdBit(q.va, true);
          }
          assert Abs() == TouchSd(old(Abs()), q, sd0);
        }
        if q.fc && SdTrap(sd0) {
          outcome := Fault(F_OTRAP);
          RaiseFault(q, F_OTRAP);
        } else {
          outcome := Physical(Displaced(SdSegAddr(sd1), Sot(q.va)));
          AddressReport(Abs(), q, outcome.pa);
        }
      }
    }

    method DecodePage(q: Request, sd0: Word, sd1: Word, v: PdView) returns (outcome: Outcome)
      requires Ok()
      modifies this`fcode, this`faddr, this`mem, pdclh, pdcrh
      ensures Ok() && DecodePaged(old(Abs()), q, sd0, sd1, v) == Decoded(Abs(), outcome)
    {
      hide AlignedTables, Total, Reported, Permits, Beyond, Displaced, Pot, PagedOffset, MaxOffset, PdLast;
      hide PdPresent, PdWfault, PdAddrField, PdLoc, HasM, HasR, UpdatePd;
      if q.fc && !Permits(v.acc, q.acc, q.cm) {
        outcome := Fault(F_ACC);
        RaiseFault(q, F_ACC);
      } else if PdLast(v.pd) && Beyond(PagedOffset(q.va), MaxOffset(sd0)) {
        outcome := Fault(F_SEG_OFFSET);
        RaiseFault(q, F_SEG_OFFSET);
      } else if !PdPresent(v.pd) {
        outcome := Fault(F_PAGE_NOT_PRES);
        RaiseFault(q, F_PAGE_NOT_PRES);
      } else if q.fc && (q.acc == ACC_W || q.acc == ACC_IR) && PdWfault(v.pd) {
        outcome := Fault(F_PW);
        RaiseFault(q, F_PW);
      } else {
        if q.fc {
          if q.acc == ACC_W && !HasM(v.pd) {
            UpdatePdBit(q.va, PdLoc(sd1, q.va), true);
          }
          if !HasR(v.pd) {
            UpdatePdBit(q.va, PdLoc(sd1, q.va), false);
          }
          assert Abs() == TouchPd(old(Abs()), q, PdLoc(sd1, q.va), v.pd);
        }
        outcome := Physical(Displaced(PdAddrField(v.pd), Pot(q.va)));
        AddressReport(Abs(), q, outcome.pa);
      }
    }

    /** Translate a virtual address: both caches are searched before any miss is handled. */
    method DecodeVa(q: Request) returns (outcome: Outcome)
      requires Ok()
      modifies this`fcode, this`faddr, this`mem, sdcl, sdch, pdcll, pdclh, pdcrl, pdcrh
      ensures Ok() && Decode(old(Abs()), q) == Decoded(Abs(), outcome)
    {
      hide AlignedTables, Total, SdRow, PdRow, SdHit, PdLookup, SdFailure, Sd0, Sd1, SdContig, SdceToSd0, SdceToSd1;
      hide DecodeContig, DecodePaged, PutSd, FetchPd, Reported;
      if !enabled {
        return Physical(q.va);
      }
      var sdFound, sd0, sd1 := GetSdce(q.va);
      var pdFound, pd, acc := GetPdce(q.va);
      var v := PdView(pd, acc);
      if !sdFound {
        var failed, o, m0, m1 := GetSd(q);
        if failed {
          return o;
        }
        sd0, sd1 := m0, m1;
        PutSdPages(old(Abs()), q.va, sd0, sd1);
      }
      assert FetchSd(old(Abs()), q) == SdInHand(Abs(), sd0, sd1);
      if SdContig(sd0) {
        outcome := DecodeContiguous(q, sd0, sd1);
      } else {
        if !pdFound {
          var failed, w := GetPd(q, sd0, sd1);
          if failed {
            return Fault(F_PDTLEN);
          }
          v := w;
        } else {
          FetchFound(Abs(), q, sd0, sd1, v);
        }
        outcome := DecodePage(q, sd0, sd1, v);
      }
    }

    /** A checked translation as the CPU asks for it; success is noted in the VAR. */
    method XlateAddr(va: Word, acc: Word, cm: Mode) returns (outcome: Outcome)
      requires Ok()
      modifies this, sdcl, sdch, pdcll, pdclh, pdcrl, pdcrh
      ensures Ok() && Cached(old(Abs()), Translate(va, acc, cm)) == CachedStep(Abs(), Saw(outcome))
    {
      hide AlignedTables, Total, Decode;
      outcome := DecodeVa(Request(va, acc, true, cm));
      if outcome.Physical? {
        vaReg := va;
      }
    }

    method WriteSramaRegister(i: Sec, val: Word)
      requires Ok()
      modifies secAddr, sdch, pdclh, pdcrh
      ensures Ok() && Abs() == Cached(old(Abs()), WriteSrama(i, val)).s
    {
      hide FlushSection, TableBase, Aligned, Total;
      BaseAligned(val);
      secAddr[i] := TableBase(val);
      assert Registers() == Register(old(Registers()), WriteSrama(i, val));
      FlushCacheSec(i);
      FlushSectionRows(old(Abs()), Register(old(Registers()), WriteSrama(i, val)), i);
    }

    method WriteSrambRegister(i: Sec, val: Word)
      requires Ok()
      modifies secLen
      ensures Ok() && Abs() == Cached(old(Abs()), WriteSramb(i, val)).s
    {
      hide TableLength, AlignedTables, Total;
      secLen[i] := TableLength(val);
      assert Registers() == Register(old(Registers()), WriteSramb(i, val));
    }

    method WriteConfRegister(val: Word)
      requires Ok()
      modifies this`conf
      ensures Ok() && Abs() == Cached(old(Abs()), WriteConf(val)).s
    {
      hide ConfBits, AlignedTables, Total;
      conf := ConfBits(val);
    }

    method WriteVarRegister(val: Word)
      requires Ok()
      modifies this`vaReg, sdch, pdclh, pdcrh
      ensures Ok() && Abs() == Cached(old(Abs()), WriteVar(val)).s
    {
      hide SdRow, PdRow, PdHit, SdGood, Drop, AlignedTables, Total;
      vaReg := val;
      FlushSdce(val);
      FlushPdce(val);
    }

    /** Reset: flush every section. */
    method Init()
      requires Ok()
      modifies sdch, pdclh, pdcrh
      ensures Ok() && Abs() == Reset(old(Abs()))
    {
      hide FlushSection, AlignedTables, Total;
      for i := 0 to 4
        invariant Ok() && Abs() == FlushUpTo(old(Abs()), i)
      {
        FlushCacheSec(i);
      }
    }
  }

  lemma FlushSectionRows(s: State, f: Env, i: nat)
    requires |s.sd| == 32 && |s.pd| == 32
    ensures FlushSection(s.(env := f), i) == FlushSection(s, i).(env := f)
  {
  }

  lemma HaltReport(s: State, q: Request)
    ensures Report(s, q, Halted) == s
  {
  }

  lemma AddressReport(s: State, q: Request, pa: Word)
    ensures Report(s, q, Physical(pa)) == s
  {
  }

  lemma PutSdPages(s: State, va: Word, sd0: Word, sd1: Word)
    requires |s.sd| == 32
    ensures PutSd(s, va, sd0, sd1).pd == s.pd
  {
    hide SdRow, SdToSdcl, SdToSdch;
  }

  lemma FetchFound(s: State, q: Request, sd0: Word, sd1: Word, v: PdView)
    requires Valid(s) && PdLookup(s.pd[PdRow(q.va)], q.va) == Some(v)
    ensures FetchPd(s, q, sd0, sd1) == PdInHand(s, v)
  {
    hide PdRow, PdLookup, AlignedTables, Total;
  }

  lemma WriteTotal(m: Memory, a: Word, w: Word)
    requires Total(m)
    ensures Total(Write(m, a, w))
  {
  }
}
