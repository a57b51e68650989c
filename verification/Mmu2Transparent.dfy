/**
 The Rev 2 caches are transparent: a translation through them ends as the walk over the
 tables in memory ends, leaves the same memory and fault registers, and keeps agreement.
 */
module Mmu2Transparent {

  import opened Options
  import opened WordMemory
  import opened Mmu2Format
  import opened Mmu2
  import opened Mmu2Cache

  // ------------------------------------------------------------ writing history bits

  lemma SdNotHalf(e: Env, va: Word)
    requires ValidEnv(e)
    ensures NotHalf(e, SdAddr(e, va))
  {
    hide Ssl, Section, InTable, Total;
    forall w: Word
      ensures SdAddr(e, va) != SdHalf(e, w)
    {
      assert Aligned(e.addr[Section(va)]) && Aligned(e.addr[Section(w)]);
      DescriptorHalves(e.addr[Section(va)], e.addr[Section(w)], Ssl(va), Ssl(w));
    }
  }

  lemma PdNotHalf(e: Env, va: Word)
    requires |e.addr| == 4 && |e.len| == 4 && TablesApart(e) && Paged(e, va)
    ensures NotHalf(e, PdAddr(e, va))
  {
    hide Paged, InTable, PdAddr, SdHalf;
  }

  /** The state between the memory write and the cache write. */
  function MarkState(s: State, a: Word, r: bool, m: bool): State { s.(env := MarkEnv(s.env, a, r, m)) }

  lemma SdMarkAgrees(s: State, va: Word, w: Word)
    requires Coherent(s) && SdHit(s.sd[SdRow(va)], va) && HasM(Sd0(s.env, va))
    ensures var x := s.sd[SdRow(va)];
            SdAgrees(s.(sd := s.sd[SdRow(va) := x.(hi := WithM(x.hi))]), w)
  {
    hide SdLike, SdTag, SdRow, SdceToSd0, SdceToSd1, SdGood, SdceTag, Sd0, Sd1, SdFailure, PdAgrees, AlignedTables;
    hide Total, HasM, WithM, SegmentOf;
    assert SdAgrees(s, w);
    var x := s.sd[SdRow(va)];
    SdMarkBits(x.hi, x.lo);
    if SdRow(w) == SdRow(va) && SdTag(w) == SdTag(va) {
      SdKey(w, va);
      SameSegment(s.env, w, va);
      SdLikeMarked(SdceToSd0(x.hi, x.lo), SdceToSd1(x.hi), Sd0(s.env, w), Sd1(s.env, w));
    }
  }

  /** Setting M in the cached descriptor is sound once memory has it. */
  lemma SdMarkCoherent(s: State, va: Word)
    requires Coherent(s) && SdHit(s.sd[SdRow(va)], va) && HasM(Sd0(s.env, va))
    ensures var x := s.sd[SdRow(va)];
            var t := s.(sd := s.sd[SdRow(va) := x.(hi := WithM(x.hi))]);
            Coherent(t) && SdHit(t.sd[SdRow(va)], va)
  {
    hide SdAgrees, EntryAgrees, AlignedTables, Total, SdRow, PdRow, SdGood, SdceTag, SdTag, WithM, HasM, Sd0;
    hide SdceToSd0, SdceToSd1;
    var x := s.sd[SdRow(va)];
    SdMarkBits(x.hi, x.lo);
    var t := s.(sd := s.sd[SdRow(va) := x.(hi := WithM(x.hi))]);
    forall w: Word
      ensures SdAgrees(t, w) && PdAgrees(t, w)
    {
      SdMarkAgrees(s, va, w);
      assert PdAgrees(s, w);
    }
  }

  lemma UpdateSdKeeps(s: State, va: Word, modified: bool)
    requires Coherent(s) && TablesApart(s.env) && SdHit(s.sd[SdRow(va)], va)
    ensures var t := UpdateSd(s, va, modified);
            && t.env == MarkEnv(s.env, SdAddr(s.env, va), !modified, modified)
            && Coherent(t) && TablesApart(t.env) && SdHit(t.sd[SdRow(va)], va)
  {
    hide Coherent, TablesApart, SdHit, SdAddr, SdRow, Mark, WithM, AlignedTables, Total, NotHalf;
    ValidOf(s);
    var a := SdAddr(s.env, va);
    SdNotHalf(s.env, va);
    MarkCoherent(s, a, !modified, modified);
    MarkApart(s.env, a, !modified, modified);
    if modified {
      MarkedDescriptor(s.env, va);
      SdMarkCoherent(MarkState(s, a, false, true), va);
    }
  }

  lemma ValidOf(s: State)
    requires Coherent(s)
    ensures Valid(s)
  {
  }

  lemma MarkedDescriptor(e: Env, va: Word)
    requires |e.addr| == 4 && |e.len| == 4
    ensures HasM(Sd0(MarkEnv(e, SdAddr(e, va), false, true), va))
  {
    hide Mark, Marked, SdAddr, Read, HasM, Grown, SdHalf, InTable;
    var a := SdAddr(e, va);
    MarkReads(e.mem, a, false, true, a);
    MarkedGrows(Read(e.mem, a), false, true);
    MarkSlot(e, a, false, true, va);
  }

  lemma PdMarkEntry(e: Env, x: Entry, va: Word, w: Word, modified: bool)
    requires |e.addr| == 4 && |e.len| == 4 && EntryAgrees(e, x, w) && PdHit(x, va) && PdRow(w) == PdRow(va)
    requires if modified then HasM(Pd(e, va)) else HasR(Pd(e, va))
    ensures EntryAgrees(e, MarkEntry(x, modified), w)
  {
    hide PdLike, PdPresent, PdTag, PdRow, PdcxhToPd, PdcxlToAcc, PdGood, PdcxlTag, SdAcc, Sd0, Pd, Paged, PageOf;
    hide InTable;
    hide HasM, HasR, WithM, WithR;
    PdMarkBits(x.hi);
    if PdTag(w) == PdTag(va) && InTable(e, w) {
      PdKey(w, va);
      SamePage(e, w, va);
      if modified {
        PdLikeWithM(EntryView(x).pd, Pd(e, w));
      } else {
        PdLikeWithR(EntryView(x).pd, Pd(e, w));
      }
    }
  }

  lemma PdMarkCoherent(s: State, va: Word, modified: bool)
    requires Coherent(s)
    requires if modified then HasM(Pd(s.env, va)) else HasR(Pd(s.env, va))
    ensures Coherent(s.(pd := s.pd[PdRow(va) := MarkPair(s.pd[PdRow(va)], va, modified)]))
  {
    hide SdAgrees, EntryAgrees, AlignedTables, Total, SdRow, PdRow, Pd, HasM, HasR, PdHit, MarkEntry;
    var t := s.(pd := s.pd[PdRow(va) := MarkPair(s.pd[PdRow(va)], va, modified)]);
    forall w: Word
      ensures SdAgrees(t, w) && PdAgrees(t, w)
    {
      assert PdAgrees(s, w);
      assert SdAgrees(s, w);
      SdAgreesFrame(s, t, w);
      var p := s.pd[PdRow(va)];
      if PdRow(w) == PdRow(va) {
        if PdHit(p.left, va) {
          PdMarkEntry(s.env, p.left, va, w, modified);
        } else if PdHit(p.right, va) {
          PdMarkEntry(s.env, p.right, va, w, modified);
        }
      }
    }
  }

  lemma MarkedPage(e: Env, va: Word, modified: bool)
    requires |e.addr| == 4 && |e.len| == 4 && Paged(e, va) && NotHalf(e, PdAddr(e, va))
    ensures var f := MarkEnv(e, PdAddr(e, va), !modified, modified);
            PdAddr(f, va) == PdAddr(e, va) && Paged(f, va) && if modified then HasM(Pd(f, va)) else HasR(Pd(f, va))
  {
    hide Mark, Marked, PdAddr, SdContig, PdInTable, Sd0, SdFailure, Read, HasM, HasR, Grown, NotHalf, InTable, SdAcc;
    var a := PdAddr(e, va);
    MarkReads(e.mem, a, !modified, modified, a);
    MarkedGrows(Read(e.mem, a), !modified, modified);
    MarkPages(e, a, !modified, modified, va);
    UsableInTable(e, va);
  }

  lemma UpdatePdKeeps(s: State, va: Word, modified: bool)
    requires Coherent(s) && TablesApart(s.env) && Paged(s.env, va)
    ensures var a := PdAddr(s.env, va);
            var t := UpdatePd(s, va, a, modified);
            && t.env == MarkEnv(s.env, a, !modified, modified)
            && Coherent(t) && TablesApart(t.env) && Paged(t.env, va) && PdAddr(t.env, va) == a
  {
    hide Coherent, TablesApart, Paged, PdAddr, PdRow, Mark, AlignedTables, Total, NotHalf, MarkPair, HasM, HasR, Pd;
    ValidOf(s);
    var a := PdAddr(s.env, va);
    PdNotHalf(s.env, va);
    MarkCoherent(s, a, !modified, modified);
    MarkApart(s.env, a, !modified, modified);
    MarkedPage(s.env, va, modified);
    PdMarkCoherent(MarkState(s, a, !modified, modified), va, modified);
  }

  // ------------------------------------------------------------ fetching descriptors

  /** Fault registers take no part in agreement. */
  lemma ReportKeeps(s: State, q: Request, o: Outcome)
    ensures Coherent(s) ==> Coherent(Report(s, q, o))
    ensures |s.env.addr| == 4 && |s.env.len| == 4 && TablesApart(s.env) ==> TablesApart(Report(s, q, o).env)
  {
    hide Coherent, TablesApart;
    SameTablesKeep(s, Report(s, q, o).env);
  }

  lemma FetchSdLike(s: State, q: Request)
    requires Coherent(s)
    ensures match FetchSd(s, q)
            case SdFailed(s1, o) => SdFailure(s.env, q.va) == Some(o) && s1 == Report(s, q, o)
            case SdInHand(s1, sd0, sd1) =>
              && Mapped(s.env, q.va) && s1.env == s.env && Coherent(s1)
              && SdLike(sd0, sd1, Sd0(s.env, q.va), Sd1(s.env, q.va))
              && (q.fc ==> SdHit(s1.sd[SdRow(q.va)], q.va))
  {
    hide SdLike, SdFailure, SdRow, SdHit, Sd0, Sd1, Reported, PutSd, SdceToSd0, SdceToSd1, PdAgrees, AlignedTables;
    hide Total;
    assert SdAgrees(s, q.va);
    if !SdHit(s.sd[SdRow(q.va)], q.va) && Mapped(s.env, q.va) {
      LikeItself(Sd0(s.env, q.va), Sd1(s.env, q.va));
      PutSdCoherent(s, q.va);
      PutSdAgrees(s, q.va, q.va);
      PutSdEnv(s, q.va, Sd0(s.env, q.va), Sd1(s.env, q.va));
    }
  }

  lemma PutSdEnv(s: State, va: Word, sd0: Word, sd1: Word)
    requires |s.sd| == 32
    ensures PutSd(s, va, sd0, sd1).env == s.env && |PutSd(s, va, sd0, sd1).sd| == 32
  {
    hide SdRow, SdToSdcl, SdToSdch;
  }

  lemma LikeTables(sd0: Word, sd1: Word, m0: Word, m1: Word, va: Word)
    requires SdLike(sd0, sd1, m0, m1)
    ensures SdContig(sd0) == SdContig(m0) && PdInTable(sd0, va) == PdInTable(m0, va) && PdLoc(sd1, va) == PdLoc(m1, va)
    ensures SdAcc(sd0) == SdAcc(m0)
  {
    hide PdSlot, PdWithin, Psl, MaxOffset, SdAcc, SdContig, SdTrap, HasM, HasR;
    SdLikeFields(sd0, sd1, m0, m1);
  }

  lemma FetchPdLike(s: State, q: Request, sd0: Word, sd1: Word)
    requires Coherent(s) && Mapped(s.env, q.va)
    requires SdLike(sd0, sd1, Sd0(s.env, q.va), Sd1(s.env, q.va)) && !SdContig(sd0)
    ensures match FetchPd(s, q, sd0, sd1)
            case PdFailed(s1, o) =>
              !PdInTable(Sd0(s.env, q.va), q.va) && o == Fault(F_PDTLEN) && s1 == Report(s, q, o)
            case PdInHand(s1, v) =>
              && Paged(s.env, q.va) && s1.env == s.env && s1.sd == s.sd && Coherent(s1)
              && PdLike(v.pd, Pd(s.env, q.va)) && v.acc == SdAcc(Sd0(s.env, q.va))
  {
    hide SdLike, PdLike, SdFailure, PdRow, PdHit, Sd0, Sd1, Read, Reported, PutPd, SdAcc, SdAgrees, AlignedTables;
    hide Total, PdPresent, PdLoc, PdInTable, EntryView, SdContig;
    LikeTables(sd0, sd1, Sd0(s.env, q.va), Sd1(s.env, q.va), q.va);
    UsableInTable(s.env, q.va);
    assert PdAgrees(s, q.va);
    if PdLookup(s.pd[PdRow(q.va)], q.va).None? && PdInTable(sd0, q.va) {
      LikeItself(Pd(s.env, q.va), 0);
      PutPdEnv(s, q.va, sd0, Pd(s.env, q.va));
      if PdPresent(Pd(s.env, q.va)) {
        PutPdCoherent(s, q.va, sd0);
      }
    }
  }

  lemma PutPdEnv(s: State, va: Word, sd0: Word, pd: Word)
    requires |s.pd| == 32
    ensures var t := PutPd(s, va, sd0, pd); t.env == s.env && t.sd == s.sd && |t.pd| == 32
  {
    hide PdRow, PutPair;
  }

  // ------------------------------------------------------------ deciding and marking

  lemma ContigSame(q: Request, sd0: Word, sd1: Word, m0: Word, m1: Word)
    requires SdLike(sd0, sd1, m0, m1)
    ensures ContigOutcome(q, sd0, sd1) == ContigOutcome(q, m0, m1) && Enters(q, sd0) == Enters(q, m0)
  {
    hide Permits, SdAcc, MaxOffset, SdTrap, SdContig, Sot, HasM, HasR, Beyond, Displaced, SdSegAddr;
    SdLikeFields(sd0, sd1, m0, m1);
  }

  lemma PagedSame(q: Request, sd0: Word, m0: Word, pd: Word, m: Word, acc: Word)
    requires MaxOffset(sd0) == MaxOffset(m0) && PdLike(pd, m)
    ensures PagedOutcome(q, sd0, pd, acc) == PagedOutcome(q, m0, m, acc)
  {
    hide Permits, MaxOffset, PdLast, PdPresent, PdWfault, PdAddrField, PagedOffset, Pot, HasM, HasR, Beyond;
    hide Displaced, PdLike;
    PdLikeFields(pd, m);
  }

  /** Two conditional single-bit writes are one write of both bits. */
  lemma TwoMarks(m: Memory, a: Word, r: bool, mod: bool)
    requires Total(m)
    ensures var m1 := if r then Mark(m, a, true, false) else m;
            (if mod then Mark(m1, a, false, true) else m1) == Mark(m, a, r, mod)
    ensures var m1 := if mod then Mark(m, a, false, true) else m;
            (if r then Mark(m1, a, true, false) else m1) == Mark(m, a, r, mod)
  {
    hide WithM, WithR;
    assert At(a) in m;
    Merge(Read(m, a));
  }

  lemma MarksSkipped(m: Memory, a: Word, c: Word, r: bool, mod: bool)
    requires (HasM(c) ==> HasM(Read(m, a))) && (HasR(c) ==> HasR(Read(m, a)))
    ensures Mark(m, a, r && !HasR(c), mod && !HasM(c)) == Mark(m, a, r, mod)
  {
    hide HasM, HasR, Marked, Write;
    SkippedMarks(Read(m, a), c, r, mod);
  }

  // ------------------------------------------------------------ transparency

  /** What a decode through the caches owes to the walk. */
  ghost predicate Faithful(s: State, q: Request, d: Decoded)
    requires Valid(s)
  {
    && d.s.env == Walk(s.env, q).env && d.outcome == Walk(s.env, q).outcome
    && Coherent(d.s) && TablesApart(d.s.env)
  }

  lemma ContigMarks(s: State, q: Request, sd0: Word)
    requires Coherent(s) && TablesApart(s.env) && SdHit(s.sd[SdRow(q.va)], q.va)
    requires (HasM(sd0) ==> HasM(Sd0(s.env, q.va))) && (HasR(sd0) ==> HasR(Sd0(s.env, q.va)))
    ensures var t := TouchSd(s, q, sd0);
            && t.env == MarkEnv(s.env, SdAddr(s.env, q.va), ConfR(s.env.conf), ConfM(s.env.conf) && q.acc == ACC_W)
            && Coherent(t) && TablesApart(t.env)
  {
    hide Coherent, TablesApart, SdHit, SdRow, SdAddr, Mark, UpdateSd, HasM, HasR, ConfM, ConfR, AlignedTables, Read;
    ValidOf(s);
    var a := SdAddr(s.env, q.va);
    var r, m := ConfR(s.env.conf) && !HasR(sd0), ConfM(s.env.conf) && q.acc == ACC_W && !HasM(sd0);
    TwoMarks(s.env.mem, a, r, m);
    MarksSkipped(s.env.mem, a, sd0, ConfR(s.env.conf), ConfM(s.env.conf) && q.acc == ACC_W);
    var s1 := if r then UpdateSd(s, q.va, false) else s;
    UpdateSdKeeps(s, q.va, false);
    ValidOf(s1);
    MarkSlot(s.env, a, true, false, q.va);
    UpdateSdKeeps(s1, q.va, true);
  }

  lemma PagedMarks(s: State, q: Request, pd: Word)
    requires Coherent(s) && TablesApart(s.env) && Paged(s.env, q.va)
    requires (HasM(pd) ==> HasM(Pd(s.env, q.va))) && (HasR(pd) ==> HasR(Pd(s.env, q.va)))
    ensures var t := TouchPd(s, q, PdAddr(s.env, q.va), pd);
            && t.env == MarkEnv(s.env, PdAddr(s.env, q.va), true, q.acc == ACC_W)
            && Coherent(t) && TablesApart(t.env)
  {
    hide Coherent, TablesApart, Paged, PdAddr, Mark, UpdatePd, HasM, HasR, AlignedTables, Read;
    ValidOf(s);
    var a := PdAddr(s.env, q.va);
    var m := q.acc == ACC_W && !HasM(pd);
    TwoMarks(s.env.mem, a, !HasR(pd), m);
    MarksSkipped(s.env.mem, a, pd, true, q.acc == ACC_W);
    var s1 := if m then UpdatePd(s, q.va, a, true) else s;
    UpdatePdKeeps(s, q.va, true);
    ValidOf(s1);
    UpdatePdKeeps(s1, q.va, false);
  }

  lemma DecodeContigFaithful(s: State, q: Request, sd0: Word, sd1: Word)
    requires Coherent(s) && TablesApart(s.env) && s.env.enabled && Mapped(s.env, q.va)
    requires SdLike(sd0, sd1, Sd0(s.env, q.va), Sd1(s.env, q.va)) && SdContig(sd0)
    requires q.fc ==> SdHit(s.sd[SdRow(q.va)], q.va)
    ensures Faithful(s, q, DecodeContig(s, q, sd0, sd1))
  {
    hide Coherent, TablesApart, SdFailure, SdHit, SdRow, Sd0, Sd1, SdAddr, Mark, TouchSd, HasM, HasR, ConfM, ConfR;
    hide AlignedTables, Total, ContigOutcome, Enters, Reported, SdContig, SdSegAddr;
    ValidOf(s);
    var m0, m1 := Sd0(s.env, q.va), Sd1(s.env, q.va);
    LikeTables(sd0, sd1, m0, m1, q.va);
    ContigSame(q, sd0, sd1, m0, m1);
    var o := ContigOutcome(q, sd0, sd1);
    if q.fc && Enters(q, sd0) {
      ContigMarks(s, q, sd0);
      ReportKeeps(TouchSd(s, q, sd0), q, o);
      ValidOf(TouchSd(s, q, sd0));
    } else {
      ReportKeeps(s, q, o);
    }
  }

  lemma DecodePagedFaithful(s: State, q: Request, sd0: Word, sd1: Word, v: PdView)
    requires Coherent(s) && TablesApart(s.env) && s.env.enabled && Paged(s.env, q.va)
    requires SdLike(sd0, sd1, Sd0(s.env, q.va), Sd1(s.env, q.va))
    requires PdLike(v.pd, Pd(s.env, q.va)) && v.acc == SdAcc(Sd0(s.env, q.va))
    ensures Faithful(s, q, DecodePaged(s, q, sd0, sd1, v))
  {
    hide Coherent, TablesApart, SdFailure, Sd0, Sd1, Pd, PdLoc, PdInTable, SdLike, SdAddr, Mark, TouchPd, HasM;
    hide HasR, AlignedTables, Total, PagedOutcome, Reported, SdContig, SdTrap, SdAcc, MaxOffset;
    ValidOf(s);
    var m0, m1 := Sd0(s.env, q.va), Sd1(s.env, q.va);
    LikeTables(sd0, sd1, m0, m1, q.va);
    SdLikeFields(sd0, sd1, m0, m1);
    PagedSame(q, sd0, m0, v.pd, Pd(s.env, q.va), v.acc);
    var o := PagedOutcome(q, sd0, v.pd, v.acc);
    if q.fc && o.Physical? {
      PagedMarks(s, q, v.pd);
      var t := TouchPd(s, q, PdAddr(s.env, q.va), v.pd);
      ReportKeeps(t, q, o);
      ValidOf(t);
    } else {
      ReportKeeps(s, q, o);
    }
  }

  /**
   Cache transparency. From agreeing caches every translation, checked or not, faulting or
   not, ends as the walk over memory does and leaves the walk's memory and registers; and
   the caches agree again afterwards.
   */
  lemma DecodeFaithful(s: State, q: Request)
    requires Coherent(s) && TablesApart(s.env)
    ensures Faithful(s, q, Decode(s, q))
  {
    hide Coherent, TablesApart, SdFailure, Sd0, Sd1, SdLike, PdLike, FetchSd, FetchPd, DecodeContig, DecodePaged;
    hide PdInTable, SdContig, AlignedTables, Total, Reported, SdHit, SdRow, Pd, SdAcc, PdAddr, Enters;
    hide ContigOutcome, PagedOutcome, Mark, SdAddr, ConfR, ConfM;
    ValidOf(s);
    if s.env.enabled {
      FetchSdLike(s, q);
      match FetchSd(s, q)
      case SdFailed(s1, o) =>
        ReportKeeps(s, q, o);
      case SdInHand(s1, sd0, sd1) =>
        ValidOf(s1);
        LikeTables(sd0, sd1, Sd0(s.env, q.va), Sd1(s.env, q.va), q.va);
        if SdContig(sd0) {
          DecodeContigFaithful(s1, q, sd0, sd1);
        } else {
          FetchPdLike(s1, q, sd0, sd1);
          match FetchPd(s1, q, sd0, sd1)
          case PdFailed(s2, o) =>
            ReportKeeps(s1, q, o);
          case PdInHand(s2, v) =>
            ValidOf(s2);
            DecodePagedFaithful(s2, q, sd0, sd1, v);
        }
    }
  }
}
