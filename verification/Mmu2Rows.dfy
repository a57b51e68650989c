/**
 Facts about the Rev 2 caches that hold in every state, whatever software stores: rows never
 hold a tag twice, flushes make lookups miss, and unchecked requests touch nothing.
 */
module Mmu2Rows {

  import opened Options
  import opened WordMemory
  import opened Mmu2Format
  import opened Mmu2
  import opened Mmu2Cache

  /** Shape is kept, and rows that were free of duplicates stay so. */
  ghost predicate Follows(s: State, t: State) {
    (Valid(s) ==> Valid(t)) && (Distinct(s) ==> Distinct(t))
  }

  lemma MarkTotal(m: Memory, a: Word, r: bool, mod: bool)
    requires Total(m)
    ensures Total(Mark(m, a, r, mod))
  {
    hide Marked;
  }

  lemma PutSdFollows(s: State, va: Word, sd0: Word, sd1: Word)
    requires |s.sd| == 32
    ensures Follows(s, PutSd(s, va, sd0, sd1))
  {
    hide SdRow, SdToSdcl, SdToSdch, OneMatch, AlignedTables, Total;
  }

  lemma PutPairOneMatch(p: Pair, va: Word, sd0: Word, pd: Word)
    requires PdLookup(p, va).None? && PdPresent(pd)
    ensures OneMatch(PutPair(p, va, sd0, pd))
  {
    hide PdGood, PdcxlTag, PdTag, SdToPdcxl, PdToPdcxh, NoteLeft, NoteRight, RightFilledLast, PdPresent, PdcxhToPd;
    hide PdcxlToAcc, PdLike, SdAcc;
    PdPacking(va, sd0, pd);
    UsedClear(PdToPdcxh(pd, sd0));
    UsedSet(p.left.hi);
  }

  /** The page cached last in a row survives the next fill of that row. */
  lemma LastFillSurvives(p: Pair, v: Word, sd0: Word, pd: Word, w: Word, te0: Word, qd: Word)
    requires PdLookup(p, v).None? && PdPresent(pd) && PdPresent(qd)
    ensures var q := PutPair(PutPair(p, v, sd0, pd), w, te0, qd);
            PdLookup(q, v).Some? && PdLookup(q, w).Some?
  {
    hide PdGood, PdcxlTag, PdTag, SdToPdcxl, PdToPdcxh, NoteLeft, NoteRight, RightFilledLast, PdPresent, PdcxhToPd;
    hide PdcxlToAcc, PdLike, SdAcc;
    PdPacking(v, sd0, pd);
    PdPacking(w, te0, qd);
    UsedClear(PdToPdcxh(pd, sd0));
    UsedClear(PdToPdcxh(qd, te0));
    UsedSet(p.left.hi);
    UsedSet(NoteLeft(PdToPdcxh(pd, sd0)));
    UsedSet(NoteRight(p.left.hi));
    UsedNoted(p.left.hi);
    UsedNoted(PdToPdcxh(pd, sd0));
  }

  lemma UsedNoted(h: Word)
    ensures RightFilledLast(NoteRight(h)) && !RightFilledLast(NoteLeft(h))
  {
  }

  lemma PutPdFollows(s: State, va: Word, sd0: Word, pd: Word)
    requires |s.pd| == 32 && PdLookup(s.pd[PdRow(va)], va).None? && PdPresent(pd)
    ensures Follows(s, PutPd(s, va, sd0, pd))
  {
    hide PdRow, PutPair, PdLookup, OneMatch, PdPresent, AlignedTables, Total;
    PutPairOneMatch(s.pd[PdRow(va)], va, sd0, pd);
  }

  lemma UpdateSdFollows(s: State, va: Word, modified: bool)
    requires |s.sd| == 32 && |s.env.addr| == 4
    ensures Follows(s, UpdateSd(s, va, modified))
  {
    hide SdRow, SdAddr, Mark, WithM, OneMatch, AlignedTables, Total;
    if Total(s.env.mem) {
      MarkTotal(s.env.mem, SdAddr(s.env, va), !modified, modified);
    }
  }

  lemma MarkPairOneMatch(p: Pair, va: Word, modified: bool)
    requires OneMatch(p)
    ensures OneMatch(MarkPair(p, va, modified))
  {
    hide PdGood, PdcxlTag, PdHit, PdcxhToPd, WithM, WithR;
    PdMarkBits(p.left.hi);
    PdMarkBits(p.right.hi);
  }

  lemma UpdatePdFollows(s: State, va: Word, a: Word, modified: bool)
    requires |s.pd| == 32
    ensures Follows(s, UpdatePd(s, va, a, modified))
  {
    hide PdRow, MarkPair, Mark, OneMatch, AlignedTables, Total;
    if Total(s.env.mem) {
      MarkTotal(s.env.mem, a, !modified, modified);
    }
    if OneMatch(s.pd[PdRow(va)]) {
      MarkPairOneMatch(s.pd[PdRow(va)], va, modified);
    }
  }

  lemma ReportFollows(s: State, q: Request, o: Outcome)
    ensures Follows(s, Report(s, q, o))
  {
    hide OneMatch, AlignedTables, Total;
  }

  lemma TouchSdFollows(s: State, q: Request, sd0: Word)
    requires Valid(s)
    ensures Follows(s, TouchSd(s, q, sd0))
  {
    hide UpdateSd, HasM, HasR, ConfM, ConfR, AlignedTables, Total, Distinct;
    UpdateSdFollows(s, q.va, false);
    var s1 := if ConfR(s.env.conf) && !HasR(sd0) then UpdateSd(s, q.va, false) else s;
    UpdateSdFollows(s1, q.va, true);
  }

  lemma TouchPdFollows(s: State, q: Request, a: Word, pd: Word)
    requires Valid(s)
    ensures Follows(s, TouchPd(s, q, a, pd))
  {
    hide UpdatePd, HasM, HasR, AlignedTables, Total, Distinct;
    UpdatePdFollows(s, q.va, a, true);
    var s1 := if q.acc == ACC_W && !HasM(pd) then UpdatePd(s, q.va, a, true) else s;
    UpdatePdFollows(s1, q.va, a, false);
  }

  lemma FetchSdFollows(s: State, q: Request)
    requires Valid(s)
    ensures Follows(s, FetchSd(s, q).s)
  {
    hide PutSd, SdRow, SdHit, SdFailure, Sd0, Sd1, Reported, AlignedTables, Total, Distinct;
    PutSdFollows(s, q.va, Sd0(s.env, q.va), Sd1(s.env, q.va));
    if SdFailure(s.env, q.va).Some? {
      ReportFollows(s, q, SdFailure(s.env, q.va).value);
    }
  }

  lemma FetchPdFollows(s: State, q: Request, sd0: Word, sd1: Word)
    requires Valid(s)
    ensures Follows(s, FetchPd(s, q, sd0, sd1).s)
  {
    hide PutPd, PdRow, PdLookup, PdInTable, PdLoc, Read, PdPresent, Reported, AlignedTables, Total, Distinct, SdAcc;
    ReportFollows(s, q, Fault(F_PDTLEN));
    var pd := Read(s.env.mem, PdLoc(sd1, q.va));
    if PdLookup(s.pd[PdRow(q.va)], q.va).None? && PdPresent(pd) {
      PutPdFollows(s, q.va, sd0, pd);
    }
  }

  /** No translation ever gives a row two good entries with one tag. */
  lemma DecodeFollows(s: State, q: Request)
    requires Valid(s)
    ensures Follows(s, Decode(s, q).s)
  {
    hide FetchSd, FetchPd, TouchSd, TouchPd, ContigOutcome, PagedOutcome, Enters, PdLoc, SdContig, Reported;
    hide AlignedTables, Total, Distinct;
    FetchSdFollows(s, q);
    match FetchSd(s, q)
    case SdFailed(_, _) =>
    case SdInHand(s1, sd0, sd1) =>
      if SdContig(sd0) {
        var o := ContigOutcome(q, sd0, sd1);
        TouchSdFollows(s1, q, sd0);
        ReportFollows(s1, q, o);
        ReportFollows(TouchSd(s1, q, sd0), q, o);
      } else {
        FetchPdFollows(s1, q, sd0, sd1);
        match FetchPd(s1, q, sd0, sd1)
        case PdFailed(_, _) =>
        case PdInHand(s2, v) =>
          var o := PagedOutcome(q, sd0, v.pd, v.acc);
          TouchPdFollows(s2, q, PdLoc(sd1, q.va), v.pd);
          ReportFollows(s2, q, o);
          ReportFollows(TouchPd(s2, q, PdLoc(sd1, q.va), v.pd), q, o);
      }
  }

  lemma DroppedMisses(x: Entry, va: Word)
    ensures !SdHit(Drop(x), va) && !PdHit(Drop(x), va)
    ensures !SdGood(Drop(x).hi) && !PdGood(Drop(x).hi)
  {
    hide SdceTag, SdTag, PdcxlTag, PdTag, SdGood, PdGood, Cleared;
    Dropped(x.hi);
  }

  predicate SegmentInCache(s: State, va: Word)
    requires |s.sd| == 32
  {
    SdHit(s.sd[SdRow(va)], va)
  }

  predicate PageInCache(s: State, va: Word)
    requires |s.pd| == 32
  {
    PdHit(s.pd[PdRow(va)].left, va) || PdHit(s.pd[PdRow(va)].right, va)
  }

  /** After a VAR write neither cache answers for the address. */
  lemma FlushAddressMisses(s: State, va: Word)
    requires |s.sd| == 32 && |s.pd| == 32 && Distinct(s)
    ensures var t := FlushAddress(s, va); !SegmentInCache(t, va) && !PageInCache(t, va) && Distinct(t)
  {
    hide SdRow, PdRow, SdTag, SdceTag, PdTag, PdcxlTag, SdGood, PdGood, Drop;
    var p := s.pd[PdRow(va)];
    assert OneMatch(p);
    DroppedMisses(s.sd[SdRow(va)], va);
    DropLow(p.left);
    DropLow(p.right);
    DroppedMisses(p.left, va);
    DroppedMisses(p.right, va);
  }

  lemma DropLow(x: Entry)
    ensures Drop(x).lo == x.lo
  {
  }

  /** After an SRAMA write neither cache answers for any address of the section. */
  lemma FlushSectionMisses(s: State, i: nat, va: Word)
    requires |s.sd| == 32 && |s.pd| == 32 && Section(va) == i
    ensures var t := FlushSection(s, i); !SegmentInCache(t, va) && !PageInCache(t, va)
  {
    hide SdRow, PdRow, SdHit, PdHit, Drop, Section, SdGood, PdGood;
    RowSection(va);
    DroppedMisses(s.sd[SdRow(va)], va);
    DroppedMisses(s.pd[PdRow(va)].left, va);
    DroppedMisses(s.pd[PdRow(va)].right, va);
  }

  lemma FlushSectionFollows(s: State, i: nat)
    requires |s.sd| == 32 && |s.pd| == 32
    ensures Follows(s, FlushSection(s, i))
  {
    hide PdGood, Drop, AlignedTables, Total, PdcxlTag, SdGood, SdHit, PdHit;
    forall j | 0 <= j < 32
      ensures OneMatch(s.pd[j]) ==> OneMatch(FlushSection(s, i).pd[j])
    {
      DroppedMisses(s.pd[j].left, 0);
    }
  }

  // ------------------------------------------------------------ unchecked requests

  /** Without fault checking a request changes nothing: no cache, register or memory word. */
  lemma ProbePure(s: State, q: Request)
    requires Valid(s) && !q.fc
    ensures Decode(s, q).s == s
  {
    hide SdRow, PdRow, SdHit, PdLookup, SdFailure, Sd0, Sd1, Read, PdInTable, PdLoc, PdPresent, SdContig;
    hide ContigOutcome, PagedOutcome, Enters, TouchSd, TouchPd, AlignedTables, Total, SdceToSd0, SdceToSd1, SdAcc;
  }

  lemma ProbeContig(q: Request, sd0: Word, sd1: Word)
    requires q.fc && ContigOutcome(q, sd0, sd1).Physical?
    ensures ContigOutcome(q.(fc := false), sd0, sd1) == ContigOutcome(q, sd0, sd1)
  {
    hide Permits, Beyond, Displaced, SdAcc, SdTrap, MaxOffset, Sot, SdSegAddr;
  }

  lemma ProbePaged(q: Request, sd0: Word, pd: Word, acc: Word)
    requires q.fc && PagedOutcome(q, sd0, pd, acc).Physical?
    ensures PagedOutcome(q.(fc := false), sd0, pd, acc) == PagedOutcome(q, sd0, pd, acc)
  {
    hide Permits, Beyond, Displaced, PdLast, PdPresent, PdWfault, MaxOffset, PagedOffset, PdAddrField, Pot;
  }

  lemma ProbeFetchPd(s: State, t: State, q: Request, sd0: Word, sd1: Word)
    requires Valid(s) && Valid(t) && t.env == s.env && t.pd == s.pd && q.fc
    ensures match FetchPd(t, q, sd0, sd1)
            case PdFailed(_, o) => o.Fault?
            case PdInHand(_, v) => FetchPd(s, q.(fc := false), sd0, sd1) == PdInHand(s, v)
  {
    hide PdRow, PdLookup, Read, PdInTable, PdLoc, PdPresent, PutPd, SdAcc, AlignedTables, Total, Reported;
  }

  lemma ProbeFetchSd(s: State, q: Request)
    requires Valid(s) && q.fc
    ensures match FetchSd(s, q)
            case SdFailed(_, o) => !o.Physical?
            case SdInHand(t, sd0, sd1) =>
              && FetchSd(s, q.(fc := false)) == SdInHand(s, sd0, sd1)
              && Valid(t) && t.env == s.env && t.pd == s.pd
  {
    hide SdRow, SdHit, InTable, Sd0, Sd1, SdValid, SdIndirect, SdPresent, SdContig, PutSd, SdceToSd0, SdceToSd1;
    hide AlignedTables, Total, Reported;
    PutSdMisc(s, q.va, Sd0(s.env, q.va), Sd1(s.env, q.va));
  }

  /** It gives the address a checked request would give, whenever that one succeeds. */
  lemma ProbeSame(s: State, q: Request)
    requires Valid(s) && q.fc && Decode(s, q).outcome.Physical?
    ensures Decode(s, q.(fc := false)).outcome == Decode(s, q).outcome
  {
    hide FetchSd, FetchPd, SdContig, AlignedTables, Total, Enters, ContigOutcome, PagedOutcome, TouchSd, TouchPd;
    hide Report, PdLoc;
    if s.env.enabled {
      ProbeFetchSd(s, q);
      var SdInHand(t, sd0, sd1) := FetchSd(s, q);
      if SdContig(sd0) {
        ProbeContig(q, sd0, sd1);
      } else {
        ProbeFetchPd(s, t, q, sd0, sd1);
        var v := FetchPd(t, q, sd0, sd1).view;
        ProbePaged(q, sd0, v.pd, v.acc);
      }
    }
  }

  lemma PutSdMisc(s: State, va: Word, sd0: Word, sd1: Word)
    requires |s.sd| == 32
    ensures var t := PutSd(s, va, sd0, sd1); t.env == s.env && t.pd == s.pd && |t.sd| == 32
  {
    hide SdRow, SdToSdcl, SdToSdch;
  }
}
