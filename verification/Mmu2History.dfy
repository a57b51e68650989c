/**
 What holds over every run of the Rev 2 unit: history bits are never lost, rows never hold a
 tag twice, flushed addresses miss, and the caches start out agreeing.
 */
module Mmu2History {

  import opened Options
  import opened WordMemory
  import opened Mmu2Format
  import opened Mmu2
  import opened Mmu2Cache
  import opened Mmu2Transparent
  import opened Mmu2Rows
  import opened Mmu2Runs

  // ------------------------------------------------------------ history bits

  lemma ReportedMemory(e: Env, q: Request, o: Outcome)
    ensures Reported(e, q, o).mem == e.mem
  {
  }

  lemma FailureIsNoAddress(e: Env, va: Word)
    requires |e.addr| == 4 && |e.len| == 4 && SdFailure(e, va).Some?
    ensures !SdFailure(e, va).value.Physical?
  {
    hide InTable, Sd0, SdValid, SdIndirect, SdPresent, SdContig;
  }

  /** A checked walk of a paged address that succeeds leaves R set, and M if it was a write. */
  lemma WalkMarksPage(e: Env, q: Request)
    requires ValidEnv(e) && e.enabled && q.fc && Walk(e, q).outcome.Physical? && !SdContig(Sd0(e, q.va))
    ensures var w := Read(Walk(e, q).env.mem, PdAddr(e, q.va)); HasR(w) && (q.acc == ACC_W ==> HasM(w))
  {
    hide Mark, Total, AlignedTables, SdFailure, Sd0, Sd1, Pd, SdContig, PagedOutcome, PdInTable, SdAddr, PdAddr;
    hide SdAcc, Reported, Read, HasM, HasR, Marked, Grown;
    if SdFailure(e, q.va).Some? {
      FailureIsNoAddress(e, q.va);
    }
    var a := PdAddr(e, q.va);
    var o := PagedOutcome(q, Sd0(e, q.va), Pd(e, q.va), SdAcc(Sd0(e, q.va)));
    ReportedMemory(MarkEnv(e, a, true, q.acc == ACC_W), q, o);
    MarkReads(e.mem, a, true, q.acc == ACC_W, a);
    MarkedGrows(Read(e.mem, a), true, q.acc == ACC_W);
  }

  lemma WalkGrows(e: Env, q: Request, a: Word)
    requires ValidEnv(e)
    ensures Grown(Read(e.mem, a), Read(Walk(e, q).env.mem, a))
  {
    hide Mark, Total, AlignedTables, SdFailure, Sd0, Sd1, Pd, SdContig, ContigOutcome, PagedOutcome, PdInTable;
    hide Enters, SdAddr, PdAddr, ConfR, ConfM, SdAcc, Reported, Read, Grown, Marked;
    GrownRefl(Read(e.mem, a));
    var sd0, sd1 := Sd0(e, q.va), Sd1(e, q.va);
    if SdFailure(e, q.va).Some? {
      ReportedMemory(e, q, SdFailure(e, q.va).value);
    } else if SdContig(sd0) {
      var b, r, m := SdAddr(e, q.va), ConfR(e.conf), ConfM(e.conf) && q.acc == ACC_W;
      MarkReads(e.mem, b, r, m, a);
      ReportedMemory(e, q, ContigOutcome(q, sd0, sd1));
      ReportedMemory(MarkEnv(e, b, r, m), q, ContigOutcome(q, sd0, sd1));
    } else {
      var b, o := PdAddr(e, q.va), PagedOutcome(q, sd0, Pd(e, q.va), SdAcc(sd0));
      MarkReads(e.mem, b, true, q.acc == ACC_W, a);
      ReportedMemory(e, q, Fault(F_PDTLEN));
      ReportedMemory(e, q, o);
      ReportedMemory(MarkEnv(e, b, true, q.acc == ACC_W), q, o);
    }
  }

  lemma StepGrows(e: Env, step: Step, a: Word)
    requires ValidEnv(e) && !(step.Store? && step.a == a)
    ensures Grown(Read(e.mem, a), Read(Plain(e, step).env.mem, a))
  {
    hide Walk, Read, Grown, Write, TableBase, TableLength, ConfBits, AlignedTables, Total;
    GrownRefl(Read(e.mem, a));
    match step
    case Translate(va, acc, cm) =>
      WalkGrows(e, Request(va, acc, true, cm), a);
    case Probe(va, acc, cm) =>
      WalkGrows(e, Request(va, acc, false, cm), a);
    case Store(b, w) =>
      WriteReads(e.mem, b, w, a);
    case _ =>
  }

  predicate NeverStored(steps: seq<Step>, a: Word) {
    forall i :: 0 <= i < |steps| ==> !(steps[i].Store? && steps[i].a == a)
  }

  /** Until software overwrites a word, a run of the machine only adds history bits to it. */
  lemma {:induction false} RunGrows(e: Env, steps: seq<Step>, a: Word)
    requires ValidEnv(e) && NeverStored(steps, a)
    ensures Grown(Read(e.mem, a), Read(RunPlain(e, steps).env.mem, a))
    decreases |steps|
  {
    hide Plain, Read, Grown, AlignedTables, Total;
    if steps == [] {
      GrownRefl(Read(e.mem, a));
    } else {
      PlainValid(e, steps[0]);
      StepGrows(e, steps[0], a);
      RunGrows(Plain(e, steps[0]).env, steps[1..], a);
      GrownTrans(Read(e.mem, a), Read(Plain(e, steps[0]).env.mem, a), Read(RunPlain(e, steps).env.mem, a));
    }
  }

  lemma GrownHistory(m: Word, n: Word)
    requires Grown(m, n)
    ensures (HasR(m) ==> HasR(n)) && (HasM(m) ==> HasM(n))
  {
  }

  /**
   History bits are never lost. In any allowed run that starts with a successful translation
   of a paged address, the page descriptor in memory ends with R set, and M set if that
   access was a write, unless software itself overwrites that word.
   */
  lemma HistoryNeverLost(s: State, va: Word, acc: Word, cm: Mode, rest: seq<Step>)
    requires Coherent(s) && TablesApart(s.env) && s.env.enabled && !SdContig(Sd0(s.env, va))
    requires AllowedRun(s, [Translate(va, acc, cm)] + rest) && NeverStored(rest, PdAddr(s.env, va))
    requires Decode(s, Request(va, acc, true, cm)).outcome.Physical?
    ensures var w := Read(RunCached(s, [Translate(va, acc, cm)] + rest).s.env.mem, PdAddr(s.env, va));
            HasR(w) && (acc == ACC_W ==> HasM(w))
  {
    hide Coherent, TablesApart, Decode, Walk, SdContig, Sd0, PdAddr, AllowedRun, NeverStored, Read, Grown, HasM;
    hide HasR, AlignedTables, Total;
    ValidOf(s);
    var steps := [Translate(va, acc, cm)] + rest;
    var q := Request(va, acc, true, cm);
    var a := PdAddr(s.env, va);
    RunFaithful(s, steps);
    DecodeFaithful(s, q);
    WalkMarksPage(s.env, q);
    assert steps[0] == Translate(va, acc, cm) && steps[1..] == rest;
    PlainValid(s.env, steps[0]);
    var e1 := Plain(s.env, steps[0]).env;
    RunGrows(e1, rest, a);
    GrownHistory(Read(e1.mem, a), Read(RunPlain(e1, rest).env.mem, a));
  }

  // ------------------------------------------------------------ protection

  /** Rights, limits and presence in the tables in memory allow the access, and lead to pa. */
  predicate Grants(e: Env, q: Request, pa: Word)
    requires |e.addr| == 4 && |e.len| == 4
  {
    var sd0, sd1, pd := Sd0(e, q.va), Sd1(e, q.va), Pd(e, q.va);
    && InTable(e, q.va) && SdValid(sd0) && !SdIndirect(sd0) && SdPresent(sd0) && Permits(SdAcc(sd0), q.acc, q.cm)
    && if SdContig(sd0) then
         !Beyond(Sot(q.va), MaxOffset(sd0)) && !SdTrap(sd0) && pa == Displaced(SdSegAddr(sd1), Sot(q.va))
       else
         && PdInTable(sd0, q.va) && PdPresent(pd) && !(PdLast(pd) && Beyond(PagedOffset(q.va), MaxOffset(sd0)))
         && !((q.acc == ACC_W || q.acc == ACC_IR) && PdWfault(pd)) && pa == Displaced(PdAddrField(pd), Pot(q.va))
  }

  lemma WalkGrants(e: Env, q: Request, pa: Word)
    requires ValidEnv(e) && e.enabled && q.fc
    ensures Walk(e, q).outcome == Physical(pa) <==> Grants(e, q, pa)
  {
    hide Mark, Total, AlignedTables, InTable, Sd0, Sd1, Pd, SdContig, SdValid, SdIndirect, SdPresent, Permits;
    hide Beyond, Displaced, SdAcc, SdTrap, MaxOffset, Sot, SdSegAddr, PdLast, PdPresent, PdWfault, PagedOffset;
    hide PdAddrField, Pot, PdInTable, Reported, SdAddr, PdAddr, ConfR, ConfM;
  }

  /**
   A checked translation succeeds, through whatever the lossy caches hold, exactly when the
   tables in memory grant the access, and then gives the address they lead to.
   */
  lemma TranslationProtects(s: State, q: Request, pa: Word)
    requires Coherent(s) && TablesApart(s.env) && s.env.enabled && q.fc
    ensures Decode(s, q).outcome == Physical(pa) <==> Grants(s.env, q, pa)
  {
    hide Coherent, TablesApart, Decode, Walk, Grants, AlignedTables, Total;
    ValidOf(s);
    DecodeFaithful(s, q);
    WalkGrants(s.env, q, pa);
  }

  // ------------------------------------------------------------ rows and flushes over runs

  lemma StepDistinct(s: State, step: Step)
    requires Valid(s) && Distinct(s)
    ensures Distinct(Cached(s, step).s)
  {
    hide Decode, Register, OneMatch, FlushAddress, FlushSection, AlignedTables, Total;
    match step
    case Translate(va, acc, cm) =>
      DecodeFollows(s, Request(va, acc, true, cm));
    case Probe(va, acc, cm) =>
      DecodeFollows(s, Request(va, acc, false, cm));
    case WriteSrama(i, _) =>
      FlushSectionFollows(s, i);
    case WriteVar(val) =>
      FlushAddressMisses(s, val);
    case _ =>
  }

  /** In every run, whatever software stores, no row ever holds two good entries with one tag. */
  lemma {:induction false} RunDistinct(s: State, steps: seq<Step>)
    requires Valid(s) && Distinct(s)
    ensures Distinct(RunCached(s, steps).s)
    decreases |steps|
  {
    hide Cached, Distinct, AlignedTables, Total;
    if steps != [] {
      CachedValid(s, steps[0]);
      StepDistinct(s, steps[0]);
      RunDistinct(Cached(s, steps[0]).s, steps[1..]);
    }
  }

  /** After any run, a VAR write makes the next lookup of the address miss in both caches. */
  lemma VarWriteMisses(s: State, steps: seq<Step>, va: Word)
    requires Valid(s) && Distinct(s)
    ensures var t := RunCached(s, steps).s;
            && Valid(t) && Valid(Cached(t, WriteVar(va)).s)
            && !InCache(Cached(t, WriteVar(va)).s, va)
  {
    hide Distinct, RunCached, FlushAddress, SegmentInCache, PageInCache, AlignedTables, Total;
    RunValid(s, steps);
    RunDistinct(s, steps);
    var t := RunCached(s, steps).s;
    CachedValid(t, WriteVar(va));
    FlushAddressMisses(t, va);
    SameRows(FlushAddress(t, va), Cached(t, WriteVar(va)).s, va);
  }

  /** An SRAMA write makes every lookup in its section miss. */
  lemma SramaWriteMisses(s: State, i: Sec, val: Word, va: Word)
    requires Valid(s) && Section(va) == i
    ensures Valid(Cached(s, WriteSrama(i, val)).s) && !InCache(Cached(s, WriteSrama(i, val)).s, va)
  {
    hide FlushSection, SegmentInCache, PageInCache, AlignedTables, Total, Section, TableBase;
    CachedValid(s, WriteSrama(i, val));
    FlushSectionMisses(s, i, va);
    SameRows(FlushSection(s, i), Cached(s, WriteSrama(i, val)).s, va);
  }

  lemma SameRows(s: State, t: State, va: Word)
    requires |s.sd| == 32 && |s.pd| == 32 && t.sd == s.sd && t.pd == s.pd
    ensures InCache(t, va) == InCache(s, va)
  {
  }

  lemma {:induction false} RunValid(s: State, steps: seq<Step>)
    requires Valid(s)
    ensures Valid(RunCached(s, steps).s)
    decreases |steps|
  {
    hide Cached, AlignedTables, Total;
    if steps != [] {
      CachedValid(s, steps[0]);
      RunValid(Cached(s, steps[0]).s, steps[1..]);
    }
  }

  /** The first n sections flushed, in order. */
  function FlushUpTo(s: State, n: nat): (t: State)
    requires |s.sd| == 32 && |s.pd| == 32 && n <= 4
    ensures |t.sd| == 32 && |t.pd| == 32 && t.env == s.env
  {
    if n == 0 then s else FlushSection(FlushUpTo(s, n - 1), n - 1)
  }

  /** Reset flushes all four sections. */
  function Reset(s: State): State
    requires |s.sd| == 32 && |s.pd| == 32
  {
    FlushUpTo(s, 4)
  }

  lemma FlushedStaysOut(s: State, i: Sec, va: Word)
    requires |s.sd| == 32 && |s.pd| == 32
    ensures var t := FlushSection(s, i); |t.sd| == 32 && |t.pd| == 32 && t.env == s.env
    ensures Section(va) == i || !InCache(s, va) ==> !InCache(FlushSection(s, i), va)
  {
    hide SdRow, PdRow, SdHit, PdHit, Drop, Section, SdGood, PdGood;
    FlushSectionFewer(s, i, va);
  }

  lemma {:induction false} FlushUpToMisses(s: State, n: nat, va: Word)
    requires |s.sd| == 32 && |s.pd| == 32 && n <= 4 && Section(va) < n
    ensures !InCache(FlushUpTo(s, n), va)
  {
    hide FlushSection, InCache, Section;
    FlushedStaysOut(FlushUpTo(s, n - 1), n - 1, va);
    if Section(va) < n - 1 {
      FlushUpToMisses(s, n - 1, va);
    }
  }

  /** After reset the caches agree with any tables, so no run from reset has to assume it. */
  lemma ResetCoherent(s: State)
    requires Valid(s)
    ensures Coherent(Reset(s))
  {
    hide FlushUpTo, SdHit, PdHit, SdRow, PdRow, AlignedTables, Total, Mapped, Paged, SdLike, PdLike;
    var t := Reset(s);
    forall va: Word
      ensures SdAgrees(t, va) && PdAgrees(t, va)
    {
      FlushUpToMisses(s, 4, va);
    }
  }

  // ------------------------------------------------------------ changing a cached descriptor

  /** Flushing an address and storing a word commute. */
  lemma FlushStoreCommute(s: State, va: Word, a: Word, w: Word)
    requires Valid(s)
    ensures Valid(Cached(s, WriteVar(va)).s) && Valid(Cached(s, Store(a, w)).s)
    ensures Cached(Cached(s, WriteVar(va)).s, Store(a, w)).s == Cached(Cached(s, Store(a, w)).s, WriteVar(va)).s
  {
    hide Write, SdRow, PdRow, PdHit, SdGood, Drop, AlignedTables, Total;
    CachedValid(s, WriteVar(va));
    CachedValid(s, Store(a, w));
  }

  /**
   How software changes a descriptor that is cached: store the new word, then write the
   address to the VAR. The caches agree again if the word backs nothing that is still cached
   after the flush.
   */
  lemma EditThenFlush(s: State, va: Word, a: Word, w: Word)
    requires Coherent(s) && TablesApart(s.env) && TablesApart(Register(s.env, Store(a, w)))
    requires Valid(Cached(s, WriteVar(va)).s) && forall v: Word :: !Backs(Cached(s, WriteVar(va)).s, a, v)
    ensures Valid(Cached(s, Store(a, w)).s) && Coherent(Cached(Cached(s, Store(a, w)).s, WriteVar(va)).s)
  {
    hide Coherent, TablesApart, Backs, Write, FlushAddress, AlignedTables, Total;
    ValidOf(s);
    SameTablesKeep(s, Register(s.env, WriteVar(va)));
    RegisterKeeps(s, WriteVar(va));
    var t := Cached(s, WriteVar(va)).s;
    SameTablesKeep(s.(env := Register(s.env, Store(a, w))), Register(t.env, Store(a, w)));
    RegisterKeeps(t, Store(a, w));
    FlushStoreCommute(s, va, a, w);
  }
}
