/**
 Section lengths of the Rev 2 unit change without a flush. When a translation is still what a
 walk would give, and how it comes to be stale.
 */
module Mmu2Lengths {

  import opened WordMemory
  import opened Mmu2Format
  import opened Mmu2
  import opened Mmu2Cache
  import opened Mmu2Transparent
  import opened Mmu2Rows
  import opened Mmu2Runs
  import opened Mmu2History

  // ------------------------------------------------------------ outcomes need agreement only

  /** From agreeing caches every outcome is the walk's, even if tables overlap. */
  lemma OutcomeFaithful(s: State, q: Request)
    requires Coherent(s)
    ensures Decode(s, q).outcome == Walk(s.env, q).outcome
  {
    hide Coherent, SdFailure, Sd0, Sd1, SdLike, PdLike, FetchSd, FetchPd, TouchSd, TouchPd, PdInTable, SdContig;
    hide AlignedTables, Total, Reported, SdHit, SdRow, Pd, SdAcc, MaxOffset, PdLoc, PdAddr, Enters, ContigOutcome;
    hide PagedOutcome, Mark, SdAddr, ConfR, ConfM, SdTrap;
    ValidOf(s);
    if s.env.enabled {
      FetchSdLike(s, q);
      match FetchSd(s, q)
      case SdFailed(_, _) =>
      case SdInHand(s1, sd0, sd1) =>
        ValidOf(s1);
        var m0, m1 := Sd0(s.env, q.va), Sd1(s.env, q.va);
        LikeTables(sd0, sd1, m0, m1, q.va);
        if SdContig(sd0) {
          ContigSame(q, sd0, sd1, m0, m1);
        } else {
          FetchPdLike(s1, q, sd0, sd1);
          match FetchPd(s1, q, sd0, sd1)
          case PdFailed(_, _) =>
          case PdInHand(_, v) =>
            SdLikeFields(sd0, sd1, m0, m1);
            PagedSame(q, sd0, m0, v.pd, Pd(s.env, q.va), v.acc);
        }
    }
  }

  // ------------------------------------------------------------ a cached segment beyond the length

  /** It is still translated, although a walk ends in a length fault. */
  lemma CutSegmentStale(s: State, q: Request)
    requires Valid(s) && s.env.enabled && SegmentInCache(s, q.va) && !InTable(s.env, q.va)
    ensures Walk(s.env, q).outcome == Fault(F_SDTLEN) && Decode(s, q).outcome != Fault(F_SDTLEN)
  {
    hide SdRow, SdHit, Sd0, Sd1, InTable, SdValid, SdIndirect, SdPresent, SdContig, FetchPd, Reported, Permits;
    hide Beyond;
    hide Displaced, SdAcc, SdTrap, MaxOffset, Sot, SdSegAddr, PdLast, PdPresent, PdWfault, PagedOffset, PdAddrField;
    hide Pot;
    hide SdceToSd0, SdceToSd1, TouchSd, TouchPd, AlignedTables, Total, PdLoc, Enters;
    var x := s.sd[SdRow(q.va)];
    FetchPdCode(s, q, SdceToSd0(x.hi, x.lo), SdceToSd1(x.hi));
  }

  lemma FetchPdCode(s: State, q: Request, sd0: Word, sd1: Word)
    requires Valid(s)
    ensures FetchPd(s, q, sd0, sd1).PdFailed? ==> FetchPd(s, q, sd0, sd1).outcome == Fault(F_PDTLEN)
  {
    hide PdRow, PdLookup, Read, PdInTable, PdLoc, PdPresent, PutPd, SdAcc, AlignedTables, Total, Reported;
  }

  // ------------------------------------------------------------ exactly when a length write is harmless

  ghost predicate AllFaithful(s: State)
    requires Valid(s)
  {
    forall q: Request :: Decode(s, q).outcome == Walk(s.env, q).outcome
  }

  /**
   After an SRAMB write that takes in no page cut off before, every translation still ends as
   the walk exactly when every cached segment is within the new length. Cached pages do not
   matter: they are asked for only once their segment is found.
   */
  lemma LengthWriteExactly(s: State, i: Sec, val: Word)
    requires Coherent(s) && s.env.enabled
    requires forall va: Word ::
               PageInCache(s, va) && InTable(Register(s.env, WriteSramb(i, val)), va) ==> InTable(s.env, va)
    ensures var t := Cached(s, WriteSramb(i, val)).s;
            Valid(t) && (AllFaithful(t) <==> forall va: Word :: SegmentInCache(s, va) ==> InTable(t.env, va))
  {
    hide Coherent, Decode, Walk, SegmentInCache, PageInCache, InTable, TableLength, AlignedTables, Total;
    ValidOf(s);
    var step := WriteSramb(i, val);
    var t := Cached(s, step).s;
    CachedValid(s, step);
    if forall va: Word :: SegmentInCache(s, va) ==> InTable(t.env, va) {
      RegisterKeeps(s, step);
      forall q: Request
        ensures Decode(t, q).outcome == Walk(t.env, q).outcome
      {
        OutcomeFaithful(t, q);
      }
    } else {
      var va: Word :| SegmentInCache(s, va) && !InTable(t.env, va);
      SameSegments(s, t, va);
      var q := Request(va, ACC_OF, true, 0);
      CutSegmentStale(t, q);
      assert Decode(t, q).outcome != Walk(t.env, q).outcome;
    }
  }

  lemma SameSegments(s: State, t: State, va: Word)
    requires |s.sd| == 32 && t.sd == s.sd
    ensures SegmentInCache(t, va) == SegmentInCache(s, va)
  {
  }

  // ------------------------------------------------------------ such a state is reached

  lemma UpdateSdHits(s: State, va: Word, modified: bool)
    requires |s.sd| == 32 && |s.env.addr| == 4 && SegmentInCache(s, va)
    ensures SegmentInCache(UpdateSd(s, va, modified), va)
  {
    hide SdRow, SdAddr, Mark, WithM, SdGood, SdceTag, SdTag, SdceToSd0, SdceToSd1;
    SdMarkBits(s.sd[SdRow(va)].hi, s.sd[SdRow(va)].lo);
  }

  lemma UpdatedShape(s: State, va: Word, modified: bool)
    requires |s.sd| == 32 && |s.env.addr| == 4
    ensures |UpdateSd(s, va, modified).sd| == 32 && |UpdateSd(s, va, modified).env.addr| == 4
  {
    hide SdRow, SdAddr, Mark, WithM;
  }

  lemma TouchSdHits(s: State, q: Request, sd0: Word)
    requires |s.sd| == 32 && |s.env.addr| == 4 && SegmentInCache(s, q.va)
    ensures |TouchSd(s, q, sd0).sd| == 32 && SegmentInCache(TouchSd(s, q, sd0), q.va)
  {
    hide UpdateSd, SegmentInCache, HasM, HasR, ConfM, ConfR;
    UpdatedShape(s, q.va, false);
    UpdateSdHits(s, q.va, false);
    var s1 := if ConfR(s.env.conf) && !HasR(sd0) then UpdateSd(s, q.va, false) else s;
    UpdatedShape(s1, q.va, true);
    UpdateSdHits(s1, q.va, true);
  }

  lemma TouchPdSegments(s: State, q: Request, a: Word, pd: Word)
    requires |s.pd| == 32
    ensures TouchPd(s, q, a, pd).sd == s.sd
  {
    hide PdRow, MarkPair, Mark, HasM, HasR;
  }

  lemma FetchPdSegments(s: State, q: Request, sd0: Word, sd1: Word)
    requires Valid(s)
    ensures FetchPd(s, q, sd0, sd1).s.sd == s.sd
  {
    hide PdRow, PdLookup, PdInTable, PdLoc, Read, PdPresent, PutPair, Reported, AlignedTables, Total, SdAcc;
  }

  /** A checked translation of an address with a usable segment leaves the segment cached. */
  lemma DecodeCaches(s: State, q: Request)
    requires Coherent(s) && s.env.enabled && q.fc && Mapped(s.env, q.va)
    ensures var t := Decode(s, q).s; |t.sd| == 32 && SegmentInCache(t, q.va)
  {
    hide Coherent, SdFailure, Sd0, Sd1, SdLike, FetchSd, FetchPd, TouchSd, TouchPd, SdContig, AlignedTables, Total;
    hide Reported, PdLoc, Enters, ContigOutcome, PagedOutcome, SdHit, SdRow;
    ValidOf(s);
    FetchSdLike(s, q);
    match FetchSd(s, q)
    case SdFailed(_, _) =>
    case SdInHand(s1, sd0, sd1) =>
      ValidOf(s1);
      if SdContig(sd0) {
        TouchSdHits(s1, q, sd0);
      } else {
        FetchPdSegments(s1, q, sd0, sd1);
        FetchPdFollows(s1, q, sd0, sd1);
        match FetchPd(s1, q, sd0, sd1)
        case PdFailed(_, _) =>
        case PdInHand(s2, v) =>
          TouchPdSegments(s2, q, PdLoc(sd1, q.va), v.pd);
      }
  }

  /** Reset, translate, shorten the section: the segment is cached and beyond the length, and
   the next translation of the address does not end as the walk. */
  lemma ShorteningStale(s: State, va: Word, acc: Word, cm: Mode, val: Word)
    requires Valid(s) && s.env.enabled && Mapped(s.env, va) && !SdWithin(Ssl(va), TableLength(val))
    ensures Valid(Reset(s))
    ensures var t := RunCached(Reset(s), [Translate(va, acc, cm), WriteSramb(Section(va), val)]).s;
            && Valid(t) && SegmentInCache(t, va) && !InTable(t.env, va) && !AllFaithful(t)
  {
    hide Coherent, Decode, SdFailure, FlushUpTo, TableLength, SdWithin, Ssl, Section, AlignedTables, Total;
    hide AllFaithful;
    hide SegmentInCache;
    ResetCoherent(s);
    var r := Reset(s);
    ValidOf(r);
    var q := Request(va, acc, true, cm);
    DecodeCaches(r, q);
    DecodeKeepsRegisters(r, q);
    var steps := [Translate(va, acc, cm), WriteSramb(Section(va), val)];
    RunValid(r, steps);
    TwoSteps(r, steps);
    var u := Cached(r, steps[0]).s;
    var t := RunCached(r, steps).s;
    SameSegments(Decode(r, q).s, t, va);
    NotAllFaithful(t, va);
  }

  lemma TwoSteps(s: State, steps: seq<Step>)
    requires Valid(s) && |steps| == 2
    ensures Valid(Cached(s, steps[0]).s) && RunCached(s, steps).s == Cached(Cached(s, steps[0]).s, steps[1]).s
  {
    hide Cached, AlignedTables, Total;
    CachedValid(s, steps[0]);
    var u := Cached(s, steps[0]).s;
    CachedValid(u, steps[1]);
    var rest := steps[1..];
    assert rest[0] == steps[1] && rest[1..] == [];
    assert RunCached(u, rest).s == Cached(u, steps[1]).s;
  }

  predicate SameRegisters(e: Env, f: Env) { f.enabled == e.enabled && f.addr == e.addr && f.len == e.len }

  lemma ReportKeepsRegisters(s: State, q: Request, o: Outcome)
    ensures SameRegisters(s.env, Report(s, q, o).env)
  {
    hide FaultWord;
  }

  lemma ContigKeepsRegisters(s: State, q: Request, sd0: Word, sd1: Word)
    requires Valid(s)
    ensures SameRegisters(s.env, DecodeContig(s, q, sd0, sd1).s.env)
  {
    hide TouchSd, ContigOutcome, Enters, Report, AlignedTables, Total;
    TouchKeepsRegisters(s, q, sd0, 0, 0);
    ReportKeepsRegisters(s, q, ContigOutcome(q, sd0, sd1));
    ReportKeepsRegisters(TouchSd(s, q, sd0), q, ContigOutcome(q, sd0, sd1));
  }

  lemma PagedKeepsRegisters(s: State, q: Request, sd0: Word, sd1: Word, v: PdView)
    requires Valid(s)
    ensures SameRegisters(s.env, DecodePaged(s, q, sd0, sd1, v).s.env)
  {
    hide TouchPd, PagedOutcome, PdLoc, Report, AlignedTables, Total;
    TouchKeepsRegisters(s, q, 0, PdLoc(sd1, q.va), v.pd);
    var o := PagedOutcome(q, sd0, v.pd, v.acc);
    ReportKeepsRegisters(s, q, o);
    ReportKeepsRegisters(TouchPd(s, q, PdLoc(sd1, q.va), v.pd), q, o);
  }

  /** A translation does not turn the unit off, nor change its section registers. */
  lemma DecodeKeepsRegisters(s: State, q: Request)
    requires Valid(s)
    ensures SameRegisters(s.env, Decode(s, q).s.env)
  {
    hide FetchSd, FetchPd, DecodeContig, DecodePaged, SdContig, AlignedTables, Total, Distinct;
    FillKeepsRegisters(s, q);
    FetchSdFollows(s, q);
    match FetchSd(s, q)
    case SdFailed(_, _) =>
    case SdInHand(s1, sd0, sd1) =>
      if SdContig(sd0) {
        ContigKeepsRegisters(s1, q, sd0, sd1);
      } else {
        PageKeepsRegisters(s1, q, sd0, sd1);
        FetchPdFollows(s1, q, sd0, sd1);
        match FetchPd(s1, q, sd0, sd1)
        case PdFailed(_, _) =>
        case PdInHand(s2, v) =>
          PagedKeepsRegisters(s2, q, sd0, sd1, v);
      }
  }

  lemma FillKeepsRegisters(s: State, q: Request)
    requires Valid(s)
    ensures SameRegisters(s.env, FetchSd(s, q).s.env)
  {
    hide SdFailure, Sd0, Sd1, SdRow, SdHit, SdceToSd0, SdceToSd1, SdToSdcl, SdToSdch, AlignedTables, Total, FaultWord;
  }

  lemma PageKeepsRegisters(s: State, q: Request, sd0: Word, sd1: Word)
    requires Valid(s)
    ensures SameRegisters(s.env, FetchPd(s, q, sd0, sd1).s.env)
  {
    hide PdRow, PdLookup, PutPair, Read, PdInTable, PdLoc, PdPresent, SdAcc, AlignedTables, Total, FaultWord;
  }

  lemma TouchKeepsRegisters(s: State, q: Request, sd0: Word, a: Word, pd: Word)
    requires |s.sd| == 32 && |s.pd| == 32 && |s.env.addr| == 4
    ensures SameRegisters(s.env, TouchSd(s, q, sd0).env) && SameRegisters(s.env, TouchPd(s, q, a, pd).env)
  {
    hide SdRow, PdRow, SdAddr, Mark, MarkPair, WithM, HasM, HasR, ConfM, ConfR;
  }

  lemma NotAllFaithful(t: State, va: Word)
    requires Valid(t) && t.env.enabled && SegmentInCache(t, va) && !InTable(t.env, va)
    ensures !AllFaithful(t)
  {
    hide Decode, Walk, SegmentInCache, InTable, AlignedTables, Total;
    var q := Request(va, ACC_OF, true, 0);
    CutSegmentStale(t, q);
    assert Decode(t, q).outcome != Walk(t.env, q).outcome;
  }

  /** Nor is that state out of reach: in any memory, one segment descriptor at address 16 and
   section lengths of ten are enough, and the length is then set to zero. */
  lemma StaleExample(m: Memory)
    requires Total(m)
    ensures var e := Env([0, 0, 0, 0], [10, 10, 10, 10], 0, 0, 0, 0, true, Write(m, 16, 0xff00_0045));
            var s := State(seq(32, _ => Entry(0, 0)), seq(32, _ => Pair(Entry(0, 0), Entry(0, 0))), e);
            && Valid(s) && Valid(Reset(s))
            && var t := RunCached(Reset(s), [Translate(0x40000, ACC_OF, 0), WriteSramb(0, 0)]).s;
            && Valid(t) && !AllFaithful(t)
  {
    hide AllFaithful, RunCached, Reset, Read, Write;
    var e := Env([0, 0, 0, 0], [10, 10, 10, 10], 0, 0, 0, 0, true, Write(m, 16, 0xff00_0045));
    var s := State(seq(32, _ => Entry(0, 0)), seq(32, _ => Pair(Entry(0, 0), Entry(0, 0))), e);
    ExampleValid(m);
    ExampleSegment();
    WriteReads(m, 16, 0xff00_0045, 16);
    ShorteningStale(s, 0x40000, ACC_OF, 0, 0);
  }

  lemma ExampleValid(m: Memory)
    requires Total(m)
    ensures AlignedTables([0, 0, 0, 0]) && Total(Write(m, 16, 0xff00_0045))
  {
  }

  lemma ExampleSegment()
    ensures Section(0x40000) == 0 && Ssl(0x40000) == 2 && SdSlot(0, 2) == 16
    ensures SdWithin(2, 10) && !SdWithin(2, TableLength(0))
    ensures SdValid(0xff00_0045) && !SdIndirect(0xff00_0045) && SdPresent(0xff00_0045)
  {
  }
}
