/**
 Whole runs of the Rev 2 unit: translations, probes, register writes and stores by the CPU.
 */
module Mmu2Runs {

  import opened Options
  import opened WordMemory
  import opened Mmu2Format
  import opened Mmu2
  import opened Mmu2Cache
  import opened Mmu2Transparent
  import opened Mmu2Rows

  type Sec = i: nat | i < 4

  datatype Step =
    | Translate(va: Word, acc: Word, cm: Mode)
    | Probe(va: Word, acc: Word, cm: Mode)
    | WriteSrama(section: Sec, val: Word)
    | WriteSramb(section: Sec, val: Word)
    | WriteConf(val: Word)
    | WriteVar(val: Word)
    | Enable
    | Disable
    | Store(a: Word, w: Word)

  function TableBase(val: Word): Word { val & 0xffff_ffe0 }
  function TableLength(val: Word): Word { (val >> 10) & 0x1fff }
  function ConfBits(val: Word): Word { val & 7 }

  /** Register writes and stores, which both machines do alike. */
  function Register(e: Env, step: Step): Env
    requires |e.addr| == 4 && |e.len| == 4
  {
    match step
    case WriteSrama(i, val) => e.(addr := e.addr[i := TableBase(val)])
    case WriteSramb(i, val) => e.(len := e.len[i := TableLength(val)])
    case WriteConf(val) => e.(conf := ConfBits(val))
    case WriteVar(val) => e.(vaReg := val)
    case Enable => e.(enabled := true)
    case Disable => e.(enabled := false)
    case Store(a, w) => e.(mem := Write(e.mem, a, w))
    case _ => e
  }

  /** A successful checked translation leaves its address in the virtual address register. */
  function Noted(e: Env, va: Word, o: Outcome): Env {
    if o.Physical? then e.(vaReg := va) else e
  }

  datatype Seen = Quiet | Saw(outcome: Outcome)
  datatype PlainStep = PlainStep(env: Env, seen: Seen)
  datatype CachedStep = CachedStep(s: State, seen: Seen)

  /** A step of the machine without caches. */
  function Plain(e: Env, step: Step): PlainStep
    requires |e.addr| == 4 && |e.len| == 4
  {
    match step
    case Translate(va, acc, cm) =>
      var w := Walk(e, Request(va, acc, true, cm));
      PlainStep(Noted(w.env, va, w.outcome), Saw(w.outcome))
    case Probe(va, acc, cm) =>
      var w := Walk(e, Request(va, acc, false, cm));
      PlainStep(w.env, Saw(w.outcome))
    case _ => PlainStep(Register(e, step), Quiet)
  }

  /** A step of the machine with caches. */
  function Cached(s: State, step: Step): CachedStep
    requires Valid(s)
  {
    match step
    case Translate(va, acc, cm) =>
      var d := Decode(s, Request(va, acc, true, cm));
      CachedStep(d.s.(env := Noted(d.s.env, va, d.outcome)), Saw(d.outcome))
    case Probe(va, acc, cm) =>
      var d := Decode(s, Request(va, acc, false, cm));
      CachedStep(d.s, Saw(d.outcome))
    case _ => CachedStep(Flushed(s, step).(env := Register(s.env, step)), Quiet)
  }

  function Flushed(s: State, step: Step): State
    requires Valid(s)
  {
    match step
    case WriteSrama(i, _) => FlushSection(s, i)
    case WriteVar(val) => FlushAddress(s, val)
    case _ => s
  }

  // ------------------------------------------------------------ what the system must respect

  predicate InCache(s: State, va: Word)
    requires |s.sd| == 32 && |s.pd| == 32
  {
    SegmentInCache(s, va) || PageInCache(s, va)
  }

  /** The word holds a descriptor that is cached for this address, within its section. */
  predicate Backs(s: State, a: Word, va: Word)
    requires Valid(s)
  {
    && InTable(s.env, va)
    && (|| (InCache(s, va) && (a == SdAddr(s.env, va) || a == SdHalf(s.env, va)))
        || (PageInCache(s, va) && a == PdAddr(s.env, va)))
  }

  /** New section lengths cut off no cached segment, and take in no cached page that was cut
   off before. */
  ghost predicate LengthsFit(s: State, f: Env)
    requires Valid(s) && |f.len| == 4
  {
    && (forall va: Word :: SegmentInCache(s, va) ==> InTable(f, va))
    && (forall va: Word :: PageInCache(s, va) && InTable(f, va) ==> InTable(s.env, va))
  }

  /** The step changes no descriptor behind the back of the caches. */
  ghost predicate Gentle(s: State, step: Step)
    requires Valid(s)
  {
    && (step.Store? ==> forall va: Word :: !Backs(s, step.a, va))
    && (step.WriteSramb? ==> LengthsFit(s, Register(s.env, step)))
  }

  /**
   The hypotheses on software: it stores to no word that backs a cached descriptor; it cuts no
   cached segment off by shortening a section, and takes no cached page back in by lengthening
   one; and it keeps its tables apart. Translations, probes and flushes are always allowed.
   */
  ghost predicate Allowed(s: State, step: Step)
    requires Valid(s)
  {
    TablesApart(Register(s.env, step)) && Gentle(s, step)
  }

  // ------------------------------------------------------------ agreement across a register step

  /** The same descriptor words are found for the address, within the table as before. */
  predicate SameWords(e: Env, f: Env, va: Word)
    requires |e.addr| == 4 && |e.len| == 4 && |f.addr| == 4 && |f.len| == 4
  {
    && Sd0(f, va) == Sd0(e, va) && Sd1(f, va) == Sd1(e, va) && Pd(f, va) == Pd(e, va)
    && InTable(e, va) && InTable(f, va)
  }

  lemma MappedKept(e: Env, f: Env, va: Word)
    requires |e.addr| == 4 && |e.len| == 4 && |f.addr| == 4 && |f.len| == 4 && Mapped(e, va) && SameWords(e, f, va)
    ensures Mapped(f, va) && Paged(f, va) == Paged(e, va)
  {
    hide Sd0, Sd1, Pd, InTable, SdValid, SdIndirect, SdPresent, SdContig, PdInTable;
  }

  lemma SdKept(s: State, t: State, va: Word)
    requires Valid(s) && Valid(t) && SdAgrees(s, va)
    requires SdHit(t.sd[SdRow(va)], va) ==> t.sd[SdRow(va)] == s.sd[SdRow(va)] && SameWords(s.env, t.env, va)
    ensures SdAgrees(t, va)
  {
    hide SdFailure, Sd0, Sd1, Pd, InTable, SdLike, SdRow, SdceToSd0, SdceToSd1, SdGood, SdceTag, SdTag;
    hide AlignedTables, Total, Paged;
    if SdHit(t.sd[SdRow(va)], va) {
      MappedKept(s.env, t.env, va);
    }
  }

  lemma EntryKept(e: Env, f: Env, x: Entry, y: Entry, va: Word)
    requires |e.addr| == 4 && |e.len| == 4 && |f.addr| == 4 && |f.len| == 4 && EntryAgrees(e, x, va)
    requires PdHit(y, va) && InTable(f, va) ==> x == y && SameWords(e, f, va)
    ensures EntryAgrees(f, y, va)
  {
    hide SdFailure, SdContig, PdInTable, Sd0, Sd1, Pd, InTable, PdLike, PdHit, EntryView, PdPresent, SdAcc;
    if PdHit(y, va) && InTable(f, va) {
      MappedKept(e, f, va);
    }
  }

  /** Every entry a step leaves good was there before, and finds the same words unless it is a
   page beyond the section's length. */
  ghost predicate Retained(s: State, t: State, va: Word)
    requires Valid(s) && Valid(t)
  {
    && (SdHit(t.sd[SdRow(va)], va) ==> t.sd[SdRow(va)] == s.sd[SdRow(va)] && SameWords(s.env, t.env, va))
    && (PdHit(t.pd[PdRow(va)].left, va) && InTable(t.env, va) ==>
          t.pd[PdRow(va)].left == s.pd[PdRow(va)].left && SameWords(s.env, t.env, va))
    && (PdHit(t.pd[PdRow(va)].right, va) && InTable(t.env, va) ==>
          t.pd[PdRow(va)].right == s.pd[PdRow(va)].right && SameWords(s.env, t.env, va))
  }

  lemma RetainedCoherent(s: State, t: State)
    requires Coherent(s) && Valid(t) && forall va: Word :: Retained(s, t, va)
    ensures Coherent(t)
  {
    hide SdAgrees, EntryAgrees, SdRow, PdRow, SdHit, PdHit, SameWords, InTable, AlignedTables, Total;
    forall va: Word
      ensures SdAgrees(t, va) && PdAgrees(t, va)
    {
      assert SdAgrees(s, va) && PdAgrees(s, va) && Retained(s, t, va);
      SdKept(s, t, va);
      EntryKept(s.env, t.env, s.pd[PdRow(va)].left, t.pd[PdRow(va)].left, va);
      EntryKept(s.env, t.env, s.pd[PdRow(va)].right, t.pd[PdRow(va)].right, va);
    }
  }

  /** A flush only takes entries away. */
  ghost predicate Fewer(s: State, t: State, va: Word)
    requires |s.sd| == 32 && |s.pd| == 32 && |t.sd| == 32 && |t.pd| == 32
  {
    && (SdHit(t.sd[SdRow(va)], va) ==> t.sd[SdRow(va)] == s.sd[SdRow(va)])
    && (PdHit(t.pd[PdRow(va)].left, va) ==> t.pd[PdRow(va)].left == s.pd[PdRow(va)].left)
    && (PdHit(t.pd[PdRow(va)].right, va) ==> t.pd[PdRow(va)].right == s.pd[PdRow(va)].right)
  }

  lemma FlushAddressFewer(s: State, val: Word, va: Word)
    requires |s.sd| == 32 && |s.pd| == 32
    ensures Fewer(s, FlushAddress(s, val), va)
  {
    hide SdRow, PdRow, SdHit, PdHit, SdGood, Drop;
    DroppedMisses(s.sd[SdRow(val)], va);
    DroppedMisses(s.pd[PdRow(val)].left, va);
    DroppedMisses(s.pd[PdRow(val)].right, va);
  }

  lemma FlushSectionFewer(s: State, i: Sec, va: Word)
    requires |s.sd| == 32 && |s.pd| == 32
    ensures Fewer(s, FlushSection(s, i), va)
    ensures Section(va) == i ==> !InCache(FlushSection(s, i), va)
  {
    hide SdRow, PdRow, SdHit, PdHit, Drop, Section;
    RowSection(va);
    DroppedMisses(s.sd[SdRow(va)], va);
    DroppedMisses(s.pd[PdRow(va)].left, va);
    DroppedMisses(s.pd[PdRow(va)].right, va);
  }

  lemma FlushedFewer(s: State, step: Step, va: Word)
    requires Valid(s)
    ensures |Flushed(s, step).sd| == 32 && |Flushed(s, step).pd| == 32 && Fewer(s, Flushed(s, step), va)
  {
    hide SdRow, PdRow, SdHit, PdHit, AlignedTables, Total;
    match step
    case WriteSrama(i, _) =>
      FlushSectionFewer(s, i, va);
    case WriteVar(val) =>
      FlushAddressFewer(s, val, va);
    case _ =>
  }

  // ------------------------------------------------------------ which words a register step leaves alone

  /** Where the slots and the memory are the same, so are the words. */
  lemma SameMemoryWords(e: Env, f: Env, va: Word)
    requires |e.addr| == 4 && |e.len| == 4 && |f.addr| == 4 && |f.len| == 4
    requires f.addr[Section(va)] == e.addr[Section(va)] && f.mem == e.mem && InTable(e, va) && InTable(f, va)
    ensures SameWords(e, f, va)
  {
    hide SdAddr, SdHalf, InTable, Section, Read, PdLoc;
    SameSlots(e, f, va);
  }

  lemma StoreWords(e: Env, a: Word, w: Word, va: Word)
    requires |e.addr| == 4 && |e.len| == 4 && InTable(e, va) && a != SdAddr(e, va) && a != SdHalf(e, va)
    ensures var f := e.(mem := Write(e.mem, a, w));
            && Sd0(f, va) == Sd0(e, va) && Sd1(f, va) == Sd1(e, va) && InTable(f, va)
            && (a != PdAddr(e, va) ==> SameWords(e, f, va))
  {
    hide SdAddr, SdHalf, InTable, Section, Read, Write, PdLoc;
    SameSlots(e, e.(mem := Write(e.mem, a, w)), va);
    WriteReads(e.mem, a, w, SdAddr(e, va));
    WriteReads(e.mem, a, w, SdHalf(e, va));
    WriteReads(e.mem, a, w, PdAddr(e, va));
  }

  /** A gentle register step leaves alone the words of every segment still cached after it, and
   of every page that is also within the table. */
  lemma WordsKept(s: State, step: Step, va: Word)
    requires Coherent(s) && Gentle(s, step) && !step.Store?
    requires SegmentInCache(s, va) || (PageInCache(s, va) && InTable(Register(s.env, step), va))
    requires step.WriteSrama? ==> Section(va) != step.section
    ensures SameWords(s.env, Register(s.env, step), va)
  {
    hide SdAddr, SdHalf, InTable, Section, Read, PdLoc, SegmentInCache, PageInCache, Backs, SameWords;
    hide TableBase, TableLength, ConfBits, Write, AlignedTables, Total, SdAgrees, PdAgrees;
    if SegmentInCache(s, va) {
      SegmentInTable(s, va);
    }
    SameSlots(s.env, Register(s.env, step), va);
    SameMemoryWords(s.env, Register(s.env, step), va);
  }

  lemma SegmentInTable(s: State, va: Word)
    requires Coherent(s) && SegmentInCache(s, va)
    ensures InTable(s.env, va)
  {
    hide InTable, SdRow, SdHit, SdFailure, SdLike, PdAgrees, AlignedTables, Total;
    assert SdAgrees(s, va);
    UsableInTable(s.env, va);
  }

  /** A store to a word that backs nothing: a segment entry for the address still finds its
   descriptor, a page entry its page descriptor as well. */
  lemma StoreKept(s: State, step: Step, va: Word)
    requires Coherent(s) && Gentle(s, step) && step.Store? && Valid(s.(env := Register(s.env, step)))
    ensures SdAgrees(s.(env := Register(s.env, step)), va) && PdAgrees(s.(env := Register(s.env, step)), va)
  {
    hide SdAgrees, PdAgrees, Backs, AlignedTables, Total, Write;
    assert SdAgrees(s, va) && PdAgrees(s, va) && !Backs(s, step.a, va);
    StoredSegment(s, step.a, step.w, va);
    StoredPage(s, step.a, step.w, va);
  }

  lemma StoredSegment(s: State, a: Word, w: Word, va: Word)
    requires Valid(s) && SdAgrees(s, va) && !Backs(s, a, va)
    ensures SdAgrees(s.(env := s.env.(mem := Write(s.env.mem, a, w))), va)
  {
    hide SdAddr, SdHalf, InTable, PdAddr, SdFailure, Sd0, Sd1, SdLike, SdRow, SdHit, SdceToSd0, SdceToSd1;
    hide AlignedTables, Total, PageInCache, Write;
    if SegmentInCache(s, va) {
      UsableInTable(s.env, va);
      StoreWords(s.env, a, w, va);
      SegmentKept(s.env, s.env.(mem := Write(s.env.mem, a, w)), va);
    }
  }

  lemma StoredPage(s: State, a: Word, w: Word, va: Word)
    requires Valid(s) && PdAgrees(s, va) && !Backs(s, a, va)
    ensures PdAgrees(s.(env := s.env.(mem := Write(s.env.mem, a, w))), va)
  {
    hide SdAddr, SdHalf, InTable, PdAddr, SdFailure, Sd0, Sd1, Pd, PdLike, PdRow, PdHit, Write;
    hide AlignedTables, Total, EntryView, SdAcc, PdPresent, SdContig, PdInTable, SegmentInCache;
    var f := s.env.(mem := Write(s.env.mem, a, w));
    SameSlots(s.env, f, va);
    if PageInCache(s, va) && InTable(s.env, va) {
      StoreWords(s.env, a, w, va);
      MappedKept(s.env, f, va);
    }
  }

  lemma SegmentKept(e: Env, f: Env, va: Word)
    requires |e.addr| == 4 && |e.len| == 4 && |f.addr| == 4 && |f.len| == 4
    requires Sd0(f, va) == Sd0(e, va) && InTable(f, va)
    ensures Mapped(e, va) ==> Mapped(f, va)
  {
    hide Sd0, InTable, SdValid, SdIndirect, SdPresent, SdContig;
  }

  // ------------------------------------------------------------ one step, any run

  lemma RegisterValid(e: Env, step: Step)
    requires ValidEnv(e)
    ensures ValidEnv(Register(e, step))
  {
    hide TableBase, TableLength, ConfBits, Aligned;
    if step.WriteSrama? {
      BaseAligned(step.val);
    }
  }

  lemma BaseAligned(val: Word)
    ensures Aligned(TableBase(val))
  {
  }

  lemma RegisterRetains(s: State, step: Step, va: Word)
    requires Coherent(s) && Gentle(s, step) && !step.Store? && Valid(Flushed(s, step).(env := Register(s.env, step)))
    ensures Retained(s, Flushed(s, step).(env := Register(s.env, step)), va)
  {
    hide Coherent, Gentle, Register, FlushAddress, FlushSection, SdRow, PdRow, SdHit, PdHit, SameWords, InTable;
    hide AlignedTables, Total, Section;
    ValidOf(s);
    FlushedFewer(s, step, va);
    if step.WriteSrama? {
      FlushSectionFewer(s, step.section, va);
    }
    var cached := SegmentInCache(s, va) || (PageInCache(s, va) && InTable(Register(s.env, step), va));
    if cached && (step.WriteSrama? ==> Section(va) != step.section) {
      WordsKept(s, step, va);
    }
  }

  lemma RegisterKeeps(s: State, step: Step)
    requires Coherent(s) && Gentle(s, step)
    ensures Coherent(Flushed(s, step).(env := Register(s.env, step)))
  {
    hide SdAgrees, PdAgrees, Gentle, Register, FlushAddress, FlushSection, Retained, AlignedTables, Total;
    RegisterValid(s.env, step);
    FlushedFewer(s, step, 0);
    var t := Flushed(s, step).(env := Register(s.env, step));
    if step.Store? {
      forall va: Word
        ensures SdAgrees(t, va) && PdAgrees(t, va)
      {
        StoreKept(s, step, va);
      }
    } else {
      forall va: Word
        ensures Retained(s, t, va)
      {
        RegisterRetains(s, step, va);
      }
      RetainedCoherent(s, t);
    }
  }

  lemma NotedKeeps(s: State, va: Word, o: Outcome)
    requires Coherent(s) && TablesApart(s.env)
    ensures Coherent(s.(env := Noted(s.env, va, o))) && TablesApart(Noted(s.env, va, o))
  {
    hide Coherent, TablesApart;
    ValidOf(s);
    SameTablesKeep(s, Noted(s.env, va, o));
  }

  lemma StepFaithful(s: State, step: Step)
    requires Coherent(s) && TablesApart(s.env) && Allowed(s, step)
    ensures var c, p := Cached(s, step), Plain(s.env, step);
            && c.s.env == p.env && c.seen == p.seen
            && Coherent(c.s) && TablesApart(c.s.env)
  {
    hide Coherent, TablesApart, Decode, Walk, Register, Flushed, Noted, AlignedTables, Total;
    ValidOf(s);
    match step
    case Translate(va, acc, cm) =>
      var q := Request(va, acc, true, cm);
      DecodeFaithful(s, q);
      NotedKeeps(Decode(s, q).s, va, Decode(s, q).outcome);
    case Probe(va, acc, cm) =>
      DecodeFaithful(s, Request(va, acc, false, cm));
    case _ =>
      RegisterKeeps(s, step);
  }

  lemma ReportedTables(e: Env, q: Request, o: Outcome)
    ensures SameTables(e, Reported(e, q, o))
  {
  }

  lemma WalkValid(e: Env, q: Request)
    requires ValidEnv(e)
    ensures ValidEnv(Walk(e, q).env)
  {
    hide Mark, Total, AlignedTables, SdFailure, Sd0, Sd1, Pd, SdContig, ContigOutcome, PagedOutcome, PdInTable;
    hide Enters, SdAddr, PdAddr, ConfR, ConfM, SdAcc, Reported;
    var sd0, sd1 := Sd0(e, q.va), Sd1(e, q.va);
    if SdFailure(e, q.va).Some? {
      ReportedTables(e, q, SdFailure(e, q.va).value);
    } else if SdContig(sd0) {
      var a, r, m := SdAddr(e, q.va), ConfR(e.conf), ConfM(e.conf) && q.acc == ACC_W;
      MarkTotal(e.mem, a, r, m);
      ReportedTables(e, q, ContigOutcome(q, sd0, sd1));
      ReportedTables(MarkEnv(e, a, r, m), q, ContigOutcome(q, sd0, sd1));
    } else {
      var a, o := PdAddr(e, q.va), PagedOutcome(q, sd0, Pd(e, q.va), SdAcc(sd0));
      MarkTotal(e.mem, a, true, q.acc == ACC_W);
      ReportedTables(e, q, Fault(F_PDTLEN));
      ReportedTables(e, q, o);
      ReportedTables(MarkEnv(e, a, true, q.acc == ACC_W), q, o);
    }
  }

  lemma PlainValid(e: Env, step: Step)
    requires ValidEnv(e)
    ensures ValidEnv(Plain(e, step).env)
  {
    hide Walk, Register, Total, AlignedTables;
    match step
    case Translate(va, acc, cm) =>
      WalkValid(e, Request(va, acc, true, cm));
    case Probe(va, acc, cm) =>
      WalkValid(e, Request(va, acc, false, cm));
    case _ =>
      RegisterValid(e, step);
  }

  lemma CachedValid(s: State, step: Step)
    requires Valid(s)
    ensures Valid(Cached(s, step).s)
  {
    hide Decode, Register, FlushAddress, FlushSection, Total, AlignedTables, Distinct;
    match step
    case Translate(va, acc, cm) =>
      DecodeFollows(s, Request(va, acc, true, cm));
    case Probe(va, acc, cm) =>
      DecodeFollows(s, Request(va, acc, false, cm));
    case _ =>
      RegisterValid(s.env, step);
      FlushedFewer(s, step, 0);
  }

  datatype PlainRun = PlainRun(env: Env, seen: seq<Seen>)
  datatype CachedRun = CachedRun(s: State, seen: seq<Seen>)

  function RunPlain(e: Env, steps: seq<Step>): PlainRun
    requires ValidEnv(e)
    decreases |steps|
  {
    if steps == [] then PlainRun(e, []) else
    var p := Plain(e, steps[0]);
    PlainValid(e, steps[0]);
    var rest := RunPlain(p.env, steps[1..]);
    PlainRun(rest.env, [p.seen] + rest.seen)
  }

  function RunCached(s: State, steps: seq<Step>): CachedRun
    requires Valid(s)
    decreases |steps|
  {
    if steps == [] then CachedRun(s, []) else
    var c := Cached(s, steps[0]);
    CachedValid(s, steps[0]);
    var rest := RunCached(c.s, steps[1..]);
    CachedRun(rest.s, [c.seen] + rest.seen)
  }

  /** Every step is allowed in the state it is taken in. */
  ghost predicate AllowedRun(s: State, steps: seq<Step>)
    requires Valid(s)
    decreases |steps|
  {
    steps == [] || (CachedValid(s, steps[0]); Allowed(s, steps[0]) && AllowedRun(Cached(s, steps[0]).s, steps[1..]))
  }

  /**
   Transparency over whole runs: with agreeing caches and software that respects them, the
   machine with caches and the machine without produce the same outcomes at every step and
   the same registers and memory at the end, and the caches still agree.
   */
  lemma {:induction false} RunFaithful(s: State, steps: seq<Step>)
    requires Coherent(s) && TablesApart(s.env) && AllowedRun(s, steps)
    ensures var c, p := RunCached(s, steps), RunPlain(s.env, steps);
            c.s.env == p.env && c.seen == p.seen && Coherent(c.s) && TablesApart(c.s.env)
    decreases |steps|
  {
    hide Coherent, TablesApart, Cached, Plain, Allowed, AlignedTables, Total;
    ValidOf(s);
    if steps != [] {
      CachedValid(s, steps[0]);
      StepFaithful(s, steps[0]);
      RunFaithful(Cached(s, steps[0]).s, steps[1..]);
    }
  }
}
