/**
 Agreement between the Rev 2 descriptor caches and the tables in memory, and what keeps it.
 */
module Mmu2Cache {

  import opened Options
  import opened WordMemory
  import opened Mmu2Format
  import opened Mmu2

  /** The address has a usable segment descriptor in memory. */
  predicate Mapped(e: Env, va: Word)
    requires |e.addr| == 4 && |e.len| == 4
  {
    SdFailure(e, va).None?
  }

  /** It is paged and its page descriptor lies inside the page table. */
  predicate Paged(e: Env, va: Word)
    requires |e.addr| == 4 && |e.len| == 4
  {
    Mapped(e, va) && !SdContig(Sd0(e, va)) && PdInTable(Sd0(e, va), va)
  }

  predicate SdAgrees(s: State, va: Word)
    requires |s.sd| == 32 && |s.env.addr| == 4 && |s.env.len| == 4
  {
    var x := s.sd[SdRow(va)];
    SdHit(x, va) ==>
      Mapped(s.env, va) && SdLike(SdceToSd0(x.hi, x.lo), SdceToSd1(x.hi), Sd0(s.env, va), Sd1(s.env, va))
  }

  /** A page entry is asked for only once the segment is found, so beyond the section's length
   it may hold anything. */
  predicate EntryAgrees(e: Env, x: Entry, va: Word)
    requires |e.addr| == 4 && |e.len| == 4
  {
    PdHit(x, va) && InTable(e, va) ==>
      && Paged(e, va) && PdPresent(Pd(e, va))
      && PdLike(EntryView(x).pd, Pd(e, va)) && EntryView(x).acc == SdAcc(Sd0(e, va))
  }

  predicate PdAgrees(s: State, va: Word)
    requires |s.pd| == 32 && |s.env.addr| == 4 && |s.env.len| == 4
  {
    EntryAgrees(s.env, s.pd[PdRow(va)].left, va) && EntryAgrees(s.env, s.pd[PdRow(va)].right, va)
  }

  /** No two good entries of a row carry the same tag. */
  predicate OneMatch(p: Pair) {
    !(PdGood(p.left.hi) && PdGood(p.right.hi) && PdcxlTag(p.left.lo) == PdcxlTag(p.right.lo))
  }

  ghost predicate Distinct(s: State) {
    forall i :: 0 <= i < |s.pd| ==> OneMatch(s.pd[i])
  }

  /** Every entry that some address would hit agrees with the tables for that address. */
  ghost predicate Coherent(s: State) {
    Valid(s) && (forall va: Word :: SdAgrees(s, va)) && (forall va: Word :: PdAgrees(s, va))
  }

  /** No page descriptor in use is the address half of a segment descriptor in use. */
  ghost predicate TablesApart(e: Env)
    requires |e.addr| == 4 && |e.len| == 4
  {
    forall v: Word, w: Word :: Paged(e, v) && InTable(e, w) ==> PdAddr(e, v) != SdHalf(e, w)
  }

  // ------------------------------------------------------------ addresses of one segment or page

  lemma SameSegmentSlot(e: Env, v: Word, w: Word)
    requires |e.addr| == 4 && |e.len| == 4 && SegmentOf(v) == SegmentOf(w)
    ensures SdAddr(e, v) == SdAddr(e, w) && InTable(e, v) == InTable(e, w)
  {
    hide Ssl, Section, SegmentOf, SdRow, SdTag, SdSlot, SdWithin;
    SegmentFields(v, w);
  }

  lemma SameSegment(e: Env, v: Word, w: Word)
    requires |e.addr| == 4 && |e.len| == 4 && SegmentOf(v) == SegmentOf(w)
    ensures SdRow(v) == SdRow(w) && SdTag(v) == SdTag(w) && SdAddr(e, v) == SdAddr(e, w)
    ensures Sd0(e, v) == Sd0(e, w) && Sd1(e, v) == Sd1(e, w) && SdFailure(e, v) == SdFailure(e, w)
  {
    hide Ssl, Section, SegmentOf, SdRow, SdTag, SdAddr, InTable, SdValid, SdIndirect, SdPresent, SdContig, Read;
    SegmentFields(v, w);
    SameSegmentSlot(e, v, w);
  }

  lemma SamePageSlot(sd0: Word, sd1: Word, v: Word, w: Word)
    requires Psl(v) == Psl(w)
    ensures PdLoc(sd1, v) == PdLoc(sd1, w)
    ensures PdInTable(sd0, v) == PdInTable(sd0, w)
  {
    hide Psl, PdSlot, PdWithin, SdSegAddr;
  }

  lemma SamePage(e: Env, v: Word, w: Word)
    requires |e.addr| == 4 && |e.len| == 4 && PageOf(v) == PageOf(w)
    ensures PdRow(v) == PdRow(w) && PdTag(v) == PdTag(w) && Sd0(e, v) == Sd0(e, w)
    ensures Paged(e, v) == Paged(e, w) && Pd(e, v) == Pd(e, w) && PdAddr(e, v) == PdAddr(e, w)
  {
    hide SdRow, SdTag, SdFailure, Sd0, Sd1, SdContig, PdLoc, PdInTable, Read, Psl, PageOf, SegmentOf, PdRow, PdTag;
    PageFields(v, w);
    SameSegment(e, v, w);
    SamePageSlot(Sd0(e, v), Sd1(e, v), v, w);
  }

  // ------------------------------------------------------------ filling the caches

  lemma PutSdAgrees(s: State, va: Word, w: Word)
    requires Coherent(s) && Mapped(s.env, va)
    ensures SdAgrees(PutSd(s, va, Sd0(s.env, va), Sd1(s.env, va)), w)
    ensures SdRow(w) == SdRow(va) && SdTag(w) == SdTag(va) ==>
              SdHit(PutSd(s, va, Sd0(s.env, va), Sd1(s.env, va)).sd[SdRow(w)], w)
  {
    hide SdLike, SdTag, SdRow, SdceToSd0, SdceToSd1, SdGood, SdceTag, SdFailure, Sd0, Sd1, SdToSdch, SdToSdcl;
    hide PdAgrees, AlignedTables, Total, SegmentOf;
    SdPacking(va, Sd0(s.env, va), Sd1(s.env, va));
    assert SdAgrees(s, w);
    if SdRow(w) == SdRow(va) && SdTag(w) == SdTag(va) {
      SdKey(w, va);
      SameSegment(s.env, w, va);
    }
  }

  lemma PutSdCoherent(s: State, va: Word)
    requires Coherent(s) && Mapped(s.env, va)
    ensures Coherent(PutSd(s, va, Sd0(s.env, va), Sd1(s.env, va)))
  {
    hide SdAgrees, EntryAgrees, AlignedTables, Total, Sd0, Sd1, SdToSdch, SdToSdcl, SdRow, PdRow;
    var t := PutSd(s, va, Sd0(s.env, va), Sd1(s.env, va));
    forall w: Word
      ensures SdAgrees(t, w) && PdAgrees(t, w)
    {
      PutSdAgrees(s, va, w);
      assert PdAgrees(s, w);
    }
  }

  /** The freshly made entry agrees for every address it matches. */
  lemma NewEntryAgrees(e: Env, va: Word, w: Word, sd0: Word)
    requires |e.addr| == 4 && |e.len| == 4
    requires Paged(e, va) && PdPresent(Pd(e, va)) && SdAcc(sd0) == SdAcc(Sd0(e, va)) && PdRow(w) == PdRow(va)
    ensures var x := Entry(SdToPdcxl(va, sd0), PdToPdcxh(Pd(e, va), sd0));
            EntryAgrees(e, x, w) && EntryAgrees(e, x.(hi := NoteLeft(x.hi)), w)
  {
    hide PdLike, PdPresent, PdTag, PdRow, PdcxhToPd, PdcxlToAcc, PdGood, PdcxlTag, NoteLeft, NoteRight, SdToPdcxl;
    hide PdToPdcxh, SdAcc, Sd0, Pd, Paged, PageOf;
    PdPacking(va, sd0, Pd(e, va));
    UsedClear(PdToPdcxh(Pd(e, va), sd0));
    if PdTag(w) == PdTag(va) {
      PdKey(w, va);
      SamePage(e, w, va);
    }
  }

  lemma UsedSetAgrees(e: Env, x: Entry, w: Word)
    requires |e.addr| == 4 && |e.len| == 4 && EntryAgrees(e, x, w)
    ensures EntryAgrees(e, x.(hi := NoteRight(x.hi)), w)
  {
    hide PdLike, PdPresent, PdTag, PdcxhToPd, PdcxlToAcc, PdGood, PdcxlTag, NoteLeft, NoteRight, SdAcc, Sd0, Pd;
    hide Paged;
    UsedSet(x.hi);
  }

  lemma PutPdCoherent(s: State, va: Word, sd0: Word)
    requires Coherent(s) && Paged(s.env, va) && PdPresent(Pd(s.env, va)) && SdAcc(sd0) == SdAcc(Sd0(s.env, va))
    ensures Coherent(PutPd(s, va, sd0, Pd(s.env, va)))
  {
    hide SdAgrees, EntryAgrees, AlignedTables, Total, Sd0, Pd, Paged, PdPresent, SdAcc, SdToPdcxl, PdToPdcxh, SdRow;
    hide PdRow, PdGood, RightFilledLast, NoteLeft, NoteRight;
    var t := PutPd(s, va, sd0, Pd(s.env, va));
    forall w: Word
      ensures SdAgrees(t, w) && PdAgrees(t, w)
    {
      assert PdAgrees(s, w);
      assert SdAgrees(s, w);
      SdAgreesFrame(s, t, w);
      if PdRow(w) == PdRow(va) {
        NewEntryAgrees(s.env, va, w, sd0);
        UsedSetAgrees(s.env, s.pd[PdRow(va)].left, w);
      }
    }
  }

  lemma SdAgreesFrame(s: State, t: State, w: Word)
    requires |s.sd| == 32 && |s.env.addr| == 4 && |s.env.len| == 4 && t.sd == s.sd && t.env == s.env && SdAgrees(s, w)
    ensures SdAgrees(t, w)
  {
  }

  // ------------------------------------------------------------ registers that play no part

  /** The tables depend on the section registers and memory only. */
  predicate SameTables(e: Env, f: Env) { f.addr == e.addr && f.len == e.len && f.mem == e.mem }

  lemma SameSlots(e: Env, f: Env, va: Word)
    requires |e.addr| == 4 && |e.len| == 4 && |f.addr| == 4 && |f.len| == 4
    ensures f.addr[Section(va)] == e.addr[Section(va)] ==>
              SdAddr(f, va) == SdAddr(e, va) && SdHalf(f, va) == SdHalf(e, va)
    ensures f.len[Section(va)] == e.len[Section(va)] ==> InTable(f, va) == InTable(e, va)
  {
    hide SdSlot, SdWithin, Section, Ssl;
  }

  lemma SameTablesWords(e: Env, f: Env, va: Word)
    requires |e.addr| == 4 && |e.len| == 4 && SameTables(e, f)
    ensures SdAddr(f, va) == SdAddr(e, va) && SdHalf(f, va) == SdHalf(e, va) && InTable(f, va) == InTable(e, va)
    ensures Sd0(f, va) == Sd0(e, va) && Sd1(f, va) == Sd1(e, va)
    ensures PdAddr(f, va) == PdAddr(e, va) && Pd(f, va) == Pd(e, va)
    ensures SdFailure(f, va) == SdFailure(e, va) && Paged(f, va) == Paged(e, va)
  {
    hide SdAddr, SdHalf, InTable, Section, Read, PdLoc, SdValid, SdIndirect, SdPresent, SdContig, PdInTable;
    SameSlots(e, f, va);
  }

  lemma SameTablesAgree(s: State, f: Env, va: Word)
    requires |s.sd| == 32 && |s.pd| == 32 && |s.env.addr| == 4 && |s.env.len| == 4 && SameTables(s.env, f)
    requires SdAgrees(s, va) && PdAgrees(s, va)
    ensures SdAgrees(s.(env := f), va) && PdAgrees(s.(env := f), va)
  {
    hide SdAddr, SdHalf, InTable, PdAddr, Sd0, Sd1, Pd, SdFailure, Paged, SdRow, PdRow, SdHit, PdHit, SdLike;
    hide PdLike, SdceToSd0, SdceToSd1, SdAcc, EntryView, PdPresent;
    SameTablesWords(s.env, f, va);
  }

  lemma SameTablesKeep(s: State, f: Env)
    requires SameTables(s.env, f)
    ensures Coherent(s) ==> Coherent(s.(env := f))
    ensures |s.env.addr| == 4 && |s.env.len| == 4 && TablesApart(s.env) ==> TablesApart(f)
  {
    hide Paged, InTable, SdHalf, PdAddr, SdAgrees, PdAgrees, AlignedTables, Total, SdAddr, Sd0, Sd1, Pd, SdFailure;
    if |s.env.addr| == 4 && |s.env.len| == 4 {
      forall va: Word
        ensures Paged(f, va) == Paged(s.env, va) && InTable(f, va) == InTable(s.env, va)
        ensures SdHalf(f, va) == SdHalf(s.env, va) && PdAddr(f, va) == PdAddr(s.env, va)
      {
        SameTablesWords(s.env, f, va);
      }
    }
    if Coherent(s) {
      forall va: Word
        ensures SdAgrees(s.(env := f), va) && PdAgrees(s.(env := f), va)
      {
        assert SdAgrees(s, va) && PdAgrees(s, va);
        SameTablesAgree(s, f, va);
      }
    }
  }

  // ------------------------------------------------------------ setting history bits in memory

  /** The word is not the address half of a segment descriptor in use. */
  ghost predicate NotHalf(e: Env, a: Word)
    requires |e.addr| == 4 && |e.len| == 4
  {
    forall w: Word :: InTable(e, w) ==> a != SdHalf(e, w)
  }

  function MarkEnv(e: Env, a: Word, r: bool, m: bool): Env { e.(mem := Mark(e.mem, a, r, m)) }

  lemma MarkReads(m: Memory, a: Word, r: bool, mod: bool, x: Word)
    ensures Read(Mark(m, a, r, mod), x) == if x == a then Marked(Read(m, a), r, mod) else Read(m, x)
    ensures Grown(Read(m, x), Read(Mark(m, a, r, mod), x))
  {
    hide Marked, Grown;
    MarkedGrows(Read(m, a), r, mod);
    GrownRefl(Read(m, x));
  }

  lemma MarkSlot(e: Env, a: Word, r: bool, m: bool, va: Word)
    requires |e.addr| == 4 && |e.len| == 4
    ensures var f := MarkEnv(e, a, r, m);
            SdAddr(f, va) == SdAddr(e, va) && SdHalf(f, va) == SdHalf(e, va) && InTable(f, va) == InTable(e, va)
  {
    hide SdAddr, SdHalf, InTable, Section, Mark;
    SameSlots(e, MarkEnv(e, a, r, m), va);
  }

  /** A history bit set elsewhere than in an address half moves no table and changes no verdict. */
  lemma MarkTables(e: Env, a: Word, r: bool, m: bool, va: Word)
    requires |e.addr| == 4 && |e.len| == 4 && NotHalf(e, a)
    ensures var f := MarkEnv(e, a, r, m);
            && InTable(f, va) == InTable(e, va) && SdFailure(f, va) == SdFailure(e, va) && Grown(Sd0(e, va), Sd0(f, va))
            && (InTable(e, va) ==> Sd1(f, va) == Sd1(e, va))
  {
    hide Grown, Read, Mark, SdAddr, SdHalf, InTable, SdValid, SdIndirect, SdPresent, SdContig;
    MarkSlot(e, a, r, m, va);
    MarkReads(e.mem, a, r, m, SdAddr(e, va));
    MarkReads(e.mem, a, r, m, SdHalf(e, va));
    GrownSd(Sd0(e, va), Sd0(MarkEnv(e, a, r, m), va));
    GrownContig(Sd0(e, va), Sd0(MarkEnv(e, a, r, m), va));
  }

  lemma GrownContig(m: Word, n: Word)
    requires Grown(m, n)
    ensures SdContig(m) == SdContig(n) && SdAcc(m) == SdAcc(n) && MaxOffset(m) == MaxOffset(n)
  {
    hide Grown, MaxOffset;
    GrownSd(m, n);
    SdFieldBits(m, n);
    SameSize(m, n);
  }

  lemma SameSize(m: Word, n: Word)
    requires (m >> 10) & 0x3fff == (n >> 10) & 0x3fff
    ensures MaxOffset(m) == MaxOffset(n)
  {
  }

  lemma MarkPages(e: Env, a: Word, r: bool, m: bool, va: Word)
    requires |e.addr| == 4 && |e.len| == 4 && NotHalf(e, a)
    ensures var f := MarkEnv(e, a, r, m);
            && Paged(f, va) == Paged(e, va) && SdAcc(Sd0(f, va)) == SdAcc(Sd0(e, va))
            && (InTable(e, va) ==> PdAddr(f, va) == PdAddr(e, va) && Grown(Pd(e, va), Pd(f, va)))
  {
    hide Grown, Read, Mark, SdAddr, SdHalf, InTable, NotHalf, Sd0, Sd1, SdFailure, SdContig, SdAcc, MaxOffset;
    hide PdWithin, PdSlot, SdSegAddr, Psl;
    MarkTables(e, a, r, m, va);
    GrownContig(Sd0(e, va), Sd0(MarkEnv(e, a, r, m), va));
    MarkReads(e.mem, a, r, m, PdAddr(e, va));
  }

  lemma MarkSdAgrees(s: State, a: Word, r: bool, m: bool, va: Word)
    requires |s.sd| == 32 && |s.env.addr| == 4 && |s.env.len| == 4 && NotHalf(s.env, a) && SdAgrees(s, va)
    ensures SdAgrees(s.(env := MarkEnv(s.env, a, r, m)), va)
  {
    hide Grown, Mark, SdAddr, SdHalf, InTable, NotHalf, Sd0, Sd1, SdFailure, SdLike, SdceToSd0, SdceToSd1, SdGood;
    hide SdceTag, SdTag, SdRow;
    MarkTables(s.env, a, r, m, va);
    var x := s.sd[SdRow(va)];
    if SdHit(x, va) {
      UsableInTable(s.env, va);
      var n0 := Sd0(MarkEnv(s.env, a, r, m), va);
      SdLikeGrown(SdceToSd0(x.hi, x.lo), SdceToSd1(x.hi), Sd0(s.env, va), Sd1(s.env, va), n0);
    }
  }

  lemma UsableInTable(e: Env, va: Word)
    requires |e.addr| == 4 && |e.len| == 4 && Mapped(e, va)
    ensures InTable(e, va)
  {
  }

  lemma MarkEntryAgrees(e: Env, a: Word, r: bool, m: bool, x: Entry, va: Word)
    requires |e.addr| == 4 && |e.len| == 4 && NotHalf(e, a) && EntryAgrees(e, x, va)
    ensures EntryAgrees(MarkEnv(e, a, r, m), x, va)
  {
    hide Grown, Mark, SdAddr, SdHalf, InTable, NotHalf, Sd0, Sd1, Pd, SdFailure, SdAcc, SdContig, PdInTable, PdLike;
    hide PdPresent, PdHit, EntryView;
    MarkSlot(e, a, r, m, va);
    MarkPages(e, a, r, m, va);
    if PdHit(x, va) && InTable(e, va) {
      PdLikeGrown(EntryView(x).pd, Pd(e, va), Pd(MarkEnv(e, a, r, m), va));
    }
  }

  lemma MarkApart(e: Env, a: Word, r: bool, m: bool)
    requires |e.addr| == 4 && |e.len| == 4 && NotHalf(e, a) && TablesApart(e)
    ensures TablesApart(MarkEnv(e, a, r, m))
  {
    hide Grown, Mark, SdAddr, SdHalf, InTable, NotHalf, Sd0, Sd1, PdAddr, Pd, SdFailure, SdAcc, SdContig, PdInTable;
    var f := MarkEnv(e, a, r, m);
    forall v: Word, w: Word | Paged(f, v) && InTable(f, w)
      ensures PdAddr(f, v) != SdHalf(f, w)
    {
      MarkPages(e, a, r, m, v);
      MarkTables(e, a, r, m, w);
      UsableInTable(e, v);
      MarkSlot(e, a, r, m, w);
    }
  }

  lemma MarkValid(e: Env, a: Word, r: bool, m: bool)
    requires ValidEnv(e)
    ensures ValidEnv(MarkEnv(e, a, r, m))
  {
    hide Marked, AlignedTables;
  }

  lemma MarkCoherent(s: State, a: Word, r: bool, m: bool)
    requires Coherent(s) && NotHalf(s.env, a)
    ensures Coherent(s.(env := MarkEnv(s.env, a, r, m)))
  {
    hide SdAgrees, EntryAgrees, Mark, NotHalf, AlignedTables, Total, SdRow, PdRow;
    MarkValid(s.env, a, r, m);
    var t := s.(env := MarkEnv(s.env, a, r, m));
    forall w: Word
      ensures SdAgrees(t, w) && PdAgrees(t, w)
    {
      assert SdAgrees(s, w) && PdAgrees(s, w);
      MarkSdAgrees(s, a, r, m, w);
      MarkEntryAgrees(s.env, a, r, m, s.pd[PdRow(w)].left, w);
      MarkEntryAgrees(s.env, a, r, m, s.pd[PdRow(w)].right, w);
    }
  }
}
