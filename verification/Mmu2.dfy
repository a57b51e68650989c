/**
 WE32101 (Rev 2) memory management unit: the translation walk over descriptor tables held
 in memory, and the same translation through the segment and page descriptor caches.
 */
module Mmu2 {

  import opened Options
  import opened WordMemory
  import opened Mmu2Format

  // ------------------------------------------------------------ the cache-free machine

  /** Section registers, fault registers, configuration and memory: all a walk depends on. */
  datatype Env = Env(
    addr: seq<Word>, len: seq<Word>, fcode: Word, faddr: Word, conf: Word, vaReg: Word, enabled: bool, mem: Memory)

  predicate Aligned(a: Word) { a & 0x1f == 0 }

  predicate AlignedTables(addr: seq<Word>) { forall i :: 0 <= i < |addr| ==> Aligned(addr[i]) }

  ghost predicate Total(m: Memory) { forall a: Word :: At(a) in m }

  ghost predicate ValidEnv(e: Env) {
    |e.addr| == 4 && |e.len| == 4 && AlignedTables(e.addr) && Total(e.mem)
  }

  /** How a translation ends. Halted is the stop on an indirect descriptor. */
  datatype Outcome = Physical(pa: Word) | Fault(code: Word) | Halted

  type Mode = m: Word | m < 4

  /** A request: address, access type, whether to check faults, and CPU execution level. */
  datatype Request = Request(va: Word, acc: Word, fc: bool, cm: Mode)

  const F_SDTLEN: Word := 0x3
  const F_PW: Word := 0x4
  const F_PDTLEN: Word := 0x5
  const F_INV_SD: Word := 0x6
  const F_SEG_NOT_PRES: Word := 0x7
  const F_OTRAP: Word := 0x8
  const F_PDT_NOT_PRES: Word := 0x9
  const F_PAGE_NOT_PRES: Word := 0xa
  const F_ACC: Word := 0xd
  const F_SEG_OFFSET: Word := 0xe

  const ACC_MT: Word := 0
  const ACC_IR: Word := 7
  const ACC_AF: Word := 8
  const ACC_OF: Word := 9
  const ACC_W: Word := 10
  const ACC_IFAD: Word := 12
  const ACC_IF: Word := 13

  /** The n-th slot of a table of 8-byte segment, or 4-byte page, descriptors. */
  function SdSlot(base: Word, n: Word): Word { base + n * 8 }
  function PdSlot(base: Word, n: Word): Word { base + n * 4 }

  /** The code admits indices up to the section's length register plus one. */
  predicate SdWithin(n: Word, len: Word) { n <= len + 1 }
  predicate PdWithin(n: Word, size: Word) { n * 4 < size }

  function SdAddr(e: Env, va: Word): Word
    requires |e.addr| == 4
  {
    SdSlot(e.addr[Section(va)], Ssl(va))
  }

  function NextWord(a: Word): Word { a + 4 }

  /** The second word of the descriptor, which holds the segment's address. */
  function SdHalf(e: Env, va: Word): Word
    requires |e.addr| == 4
  {
    NextWord(SdAddr(e, va))
  }

  predicate InTable(e: Env, va: Word)
    requires |e.len| == 4
  {
    SdWithin(Ssl(va), e.len[Section(va)])
  }

  function Sd0(e: Env, va: Word): Word
    requires |e.addr| == 4
  {
    Read(e.mem, SdAddr(e, va))
  }

  function Sd1(e: Env, va: Word): Word
    requires |e.addr| == 4
  {
    Read(e.mem, SdHalf(e, va))
  }

  function PdLoc(sd1: Word, va: Word): Word { PdSlot(SdSegAddr(sd1), Psl(va)) }

  function PdAddr(e: Env, va: Word): Word
    requires |e.addr| == 4
  {
    PdLoc(Sd1(e, va), va)
  }

  function Pd(e: Env, va: Word): Word
    requires |e.addr| == 4
  {
    Read(e.mem, PdAddr(e, va))
  }

  predicate PdInTable(sd0: Word, va: Word) { PdWithin(Psl(va), MaxOffset(sd0)) }

  /** Two access bits for each execution level, kernel's highest. */
  function Perm(flags: Word, cm: Mode): Word {
    if cm == 3 then flags & 3 else if cm == 2 then (flags >> 2) & 3 else if cm == 1 then (flags >> 4) & 3
    else (flags >> 6) & 3
  }

  predicate Permits(flags: Word, acc: Word, cm: Mode) {
    var p := Perm(flags, cm);
    if p == 0 then false
    else if p == 1 then acc == ACC_IF || acc == ACC_IFAD
    else if p == 2 then acc == ACC_IF || acc == ACC_IFAD || acc == ACC_OF || acc == ACC_AF || acc == ACC_MT
    else true
  }

  /** Why the segment descriptor cannot be used, if it cannot. */
  function SdFailure(e: Env, va: Word): Option<Outcome>
    requires |e.addr| == 4 && |e.len| == 4
  {
    var sd0 := Sd0(e, va);
    if !InTable(e, va) then Some(Fault(F_SDTLEN))
    else if !SdValid(sd0) then Some(Fault(F_INV_SD))
    else if SdIndirect(sd0) then Some(Halted)
    else if !SdPresent(sd0) then Some(Fault(if SdContig(sd0) then F_SEG_NOT_PRES else F_PDT_NOT_PRES))
    else None
  }

  predicate Beyond(offset: Word, size: Word) { offset >= size }
  function Displaced(base: Word, offset: Word): Word { base + offset }
  /** Offset of an address within its paged segment. */
  function PagedOffset(va: Word): Word { PslC(va) | Pot(va) }

  /** The contiguous segment is entered: rights and offset are in order. */
  predicate Enters(q: Request, sd0: Word) {
    (q.fc ==> Permits(SdAcc(sd0), q.acc, q.cm)) && !Beyond(Sot(q.va), MaxOffset(sd0))
  }

  function ContigOutcome(q: Request, sd0: Word, sd1: Word): Outcome {
    if q.fc && !Permits(SdAcc(sd0), q.acc, q.cm) then Fault(F_ACC)
    else if Beyond(Sot(q.va), MaxOffset(sd0)) then Fault(F_SEG_OFFSET)
    else if q.fc && SdTrap(sd0) then Fault(F_OTRAP)
    else Physical(Displaced(SdSegAddr(sd1), Sot(q.va)))
  }

  function PagedOutcome(q: Request, sd0: Word, pd: Word, pdAcc: Word): Outcome {
    if q.fc && !Permits(pdAcc, q.acc, q.cm) then Fault(F_ACC)
    else if PdLast(pd) && Beyond(PagedOffset(q.va), MaxOffset(sd0)) then Fault(F_SEG_OFFSET)
    else if !PdPresent(pd) then Fault(F_PAGE_NOT_PRES)
    else if q.fc && (q.acc == ACC_W || q.acc == ACC_IR) && PdWfault(pd) then Fault(F_PW)
    else Physical(Displaced(PdAddrField(pd), Pot(q.va)))
  }

  predicate ConfM(conf: Word) { conf & 1 != 0 }
  predicate ConfR(conf: Word) { conf & 2 != 0 }

  /** The fault code register: access type, execution level and fault number. */
  function FaultWord(acc: Word, cm: Mode, code: Word): Word { (acc << 7) | (cm << 5) | code }

  /** The fault registers change only on a fault of a checked request. */
  function Reported(e: Env, q: Request, o: Outcome): Env {
    if q.fc && o.Fault? then e.(fcode := FaultWord(q.acc, q.cm, o.code), faddr := q.va) else e
  }

  /** Setting the history bits of the word at a. */
  function Mark(m: Memory, a: Word, r: bool, mod: bool): Memory {
    Write(m, a, Marked(Read(m, a), r, mod))
  }

  datatype Walked = Walked(env: Env, outcome: Outcome)

  /** The reference: read the tables in memory, decide, and set the history bits there. */
  function Walk(e: Env, q: Request): Walked
    requires |e.addr| == 4 && |e.len| == 4
  {
    if !e.enabled then Walked(e, Physical(q.va)) else
    var failure := SdFailure(e, q.va);
    if failure.Some? then Walked(Reported(e, q, failure.value), failure.value) else
    var sd0, sd1 := Sd0(e, q.va), Sd1(e, q.va);
    if SdContig(sd0) then
      var o := ContigOutcome(q, sd0, sd1);
      var e1 := if q.fc && Enters(q, sd0)
                then e.(mem := Mark(e.mem, SdAddr(e, q.va), ConfR(e.conf), ConfM(e.conf) && q.acc == ACC_W))
                else e;
      Walked(Reported(e1, q, o), o)
    else if !PdInTable(sd0, q.va) then
      Walked(Reported(e, q, Fault(F_PDTLEN)), Fault(F_PDTLEN))
    else
      var o := PagedOutcome(q, sd0, Pd(e, q.va), SdAcc(sd0));
      var e1 := if q.fc && o.Physical?
                then e.(mem := Mark(e.mem, PdAddr(e, q.va), true, q.acc == ACC_W))
                else e;
      Walked(Reported(e1, q, o), o)
  }

  // ------------------------------------------------------------ the machine with caches

  datatype Entry = Entry(lo: Word, hi: Word)

  /** A row of the two-way page descriptor cache. */
  datatype Pair = Pair(left: Entry, right: Entry)

  datatype State = State(sd: seq<Entry>, pd: seq<Pair>, env: Env)

  ghost predicate Valid(s: State) {
    |s.sd| == 32 && |s.pd| == 32 && ValidEnv(s.env)
  }

  predicate SdHit(x: Entry, va: Word) { SdGood(x.hi) && SdceTag(x.lo) == SdTag(va) }

  predicate PdHit(x: Entry, va: Word) { PdGood(x.hi) && PdcxlTag(x.lo) == PdTag(va) }

  /** A page descriptor in hand, with the access rights of its segment. */
  datatype PdView = PdView(pd: Word, acc: Word)

  function EntryView(x: Entry): PdView { PdView(PdcxhToPd(x.hi), PdcxlToAcc(x.lo)) }

  function PdLookup(p: Pair, va: Word): Option<PdView> {
    if PdHit(p.left, va) then Some(EntryView(p.left))
    else if PdHit(p.right, va) then Some(EntryView(p.right))
    else None
  }

  function PutSd(s: State, va: Word, sd0: Word, sd1: Word): State
    requires |s.sd| == 32
  {
    s.(sd := s.sd[SdRow(va) := Entry(SdToSdcl(va, sd0), SdToSdch(sd0, sd1))])
  }

  /** Replacement within a row: an empty side first, else the side filled longer ago. */
  function PutPair(p: Pair, va: Word, sd0: Word, pd: Word): Pair {
    var x := Entry(SdToPdcxl(va, sd0), PdToPdcxh(pd, sd0));
    if !PdGood(p.left.hi) || (PdGood(p.right.hi) && RightFilledLast(p.left.hi)) then
      Pair(x.(hi := NoteLeft(x.hi)), p.right)
    else
      Pair(p.left.(hi := NoteRight(p.left.hi)), x)
  }

  function PutPd(s: State, va: Word, sd0: Word, pd: Word): State
    requires |s.pd| == 32
  {
    s.(pd := s.pd[PdRow(va) := PutPair(s.pd[PdRow(va)], va, sd0, pd)])
  }

  /** Write one history bit of the segment descriptor, in memory and (M only) in the cache. */
  function UpdateSd(s: State, va: Word, modified: bool): State
    requires |s.sd| == 32 && |s.env.addr| == 4
  {
    var s1 := s.(env := s.env.(mem := Mark(s.env.mem, SdAddr(s.env, va), !modified, modified)));
    if modified then s1.(sd := s.sd[SdRow(va) := s.sd[SdRow(va)].(hi := WithM(s.sd[SdRow(va)].hi))]) else s1
  }

  function MarkEntry(x: Entry, modified: bool): Entry {
    x.(hi := if modified then WithM(x.hi) else WithR(x.hi))
  }

  function MarkPair(p: Pair, va: Word, modified: bool): Pair {
    if PdHit(p.left, va) then p.(left := MarkEntry(p.left, modified))
    else if PdHit(p.right, va) then p.(right := MarkEntry(p.right, modified))
    else p
  }

  /** Write one history bit of the page descriptor at a, in memory and in the cache. */
  function UpdatePd(s: State, va: Word, a: Word, modified: bool): State
    requires |s.pd| == 32
  {
    s.(env := s.env.(mem := Mark(s.env.mem, a, !modified, modified)),
       pd := s.pd[PdRow(va) := MarkPair(s.pd[PdRow(va)], va, modified)])
  }

  function Report(s: State, q: Request, o: Outcome): State { s.(env := Reported(s.env, q, o)) }

  datatype GotSd = SdInHand(s: State, sd0: Word, sd1: Word) | SdFailed(s: State, outcome: Outcome)

  /** The segment descriptor from the cache, or from memory into the cache. */
  function FetchSd(s: State, q: Request): GotSd
    requires Valid(s)
  {
    var x := s.sd[SdRow(q.va)];
    if SdHit(x, q.va) then SdInHand(s, SdceToSd0(x.hi, x.lo), SdceToSd1(x.hi)) else
    var failure := SdFailure(s.env, q.va);
    if failure.Some? then SdFailed(Report(s, q, failure.value), failure.value) else
    var sd0, sd1 := Sd0(s.env, q.va), Sd1(s.env, q.va);
    SdInHand(if q.fc then PutSd(s, q.va, sd0, sd1) else s, sd0, sd1)
  }

  datatype GotPd = PdInHand(s: State, view: PdView) | PdFailed(s: State, outcome: Outcome)

  function FetchPd(s: State, q: Request, sd0: Word, sd1: Word): GotPd
    requires Valid(s)
  {
    var found := PdLookup(s.pd[PdRow(q.va)], q.va);
    if found.Some? then PdInHand(s, found.value) else
    if !PdInTable(sd0, q.va) then PdFailed(Report(s, q, Fault(F_PDTLEN)), Fault(F_PDTLEN)) else
    var pd := Read(s.env.mem, PdLoc(sd1, q.va));
    PdInHand(if q.fc && PdPresent(pd) then PutPd(s, q.va, sd0, pd) else s, PdView(pd, SdAcc(sd0)))
  }

  datatype Decoded = Decoded(s: State, outcome: Outcome)

  /** Write the history bits of a segment that the descriptor in hand lacks, as configured. */
  function TouchSd(s: State, q: Request, sd0: Word): State
    requires |s.sd| == 32 && |s.env.addr| == 4
  {
    var s1 := if ConfR(s.env.conf) && !HasR(sd0) then UpdateSd(s, q.va, false) else s;
    if ConfM(s1.env.conf) && q.acc == ACC_W && !HasM(sd0) then UpdateSd(s1, q.va, true) else s1
  }

  /** Write the history bits of a page that the descriptor in hand lacks. */
  function TouchPd(s: State, q: Request, a: Word, pd: Word): State
    requires |s.pd| == 32
  {
    var s1 := if q.acc == ACC_W && !HasM(pd) then UpdatePd(s, q.va, a, true) else s;
    if !HasR(pd) then UpdatePd(s1, q.va, a, false) else s1
  }

  function DecodeContig(s: State, q: Request, sd0: Word, sd1: Word): Decoded
    requires Valid(s)
  {
    var o := ContigOutcome(q, sd0, sd1);
    if q.fc && Enters(q, sd0) then
      Decoded(Report(TouchSd(s, q, sd0), q, o), o)
    else
      Decoded(Report(s, q, o), o)
  }

  function DecodePaged(s: State, q: Request, sd0: Word, sd1: Word, v: PdView): Decoded
    requires Valid(s)
  {
    var o := PagedOutcome(q, sd0, v.pd, v.acc);
    if q.fc && o.Physical? then
      Decoded(Report(TouchPd(s, q, PdLoc(sd1, q.va), v.pd), q, o), o)
    else
      Decoded(Report(s, q, o), o)
  }

  function Decode(s: State, q: Request): Decoded
    requires Valid(s)
  {
    if !s.env.enabled then Decoded(s, Physical(q.va)) else
    match FetchSd(s, q)
    case SdFailed(s1, o) => Decoded(s1, o)
    case SdInHand(s1, sd0, sd1) =>
      if SdContig(sd0) then DecodeContig(s1, q, sd0, sd1) else
      match FetchPd(s1, q, sd0, sd1)
      case PdFailed(s2, o) => Decoded(s2, o)
      case PdInHand(s2, v) => DecodePaged(s2, q, sd0, sd1, v)
  }

  // ------------------------------------------------------------ flushing

  function Drop(x: Entry): Entry { x.(hi := Cleared(x.hi)) }

  /** A VAR write drops the segment row, whatever its tag, and the matching page entry. */
  function FlushAddress(s: State, va: Word): State
    requires |s.sd| == 32 && |s.pd| == 32
  {
    var p := s.pd[PdRow(va)];
    var p1 := if PdHit(p.left, va) then p.(left := Drop(p.left))
              else if PdHit(p.right, va) then p.(right := Drop(p.right))
              else p;
    var x := s.sd[SdRow(va)];
    s.(sd := s.sd[SdRow(va) := if SdGood(x.hi) then Drop(x) else x], pd := s.pd[PdRow(va) := p1])
  }

  /** Drops every entry of a section. */
  function FlushSection(s: State, section: nat): State
    requires |s.sd| == 32 && |s.pd| == 32
  {
    s.(sd := seq(32, i requires 0 <= i < 32 => if i / 8 == section then Drop(s.sd[i]) else s.sd[i]),
       pd := seq(32, i requires 0 <= i < 32 =>
         if i / 8 == section then Pair(Drop(s.pd[i].left), Drop(s.pd[i].right)) else s.pd[i]))
  }
}
