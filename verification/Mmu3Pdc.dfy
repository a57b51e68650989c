/**
 Replacement in the Rev 3 page descriptor cache: what every run of lookups, fills and flushes
 keeps, and why a fill always finds a slot.
 */
module Mmu3Pdc {

  import opened Options
  import opened WordMemory
  import opened Mmu3Format

  const SIZE: nat := 64

  datatype State = State(hi: seq<Word>, lo: seq<Word>, flushU: bool, last: nat)

  predicate Shaped(s: State) { |s.hi| == SIZE && |s.lo| == SIZE && s.last < SIZE }

  // ------------------------------------------------------------ scanning

  datatype Wanted = Tagged(mask: Word, key: Word) | NotGood | NotUsed

  predicate Is(w: Wanted, h: Word) {
    match w
    case Tagged(mask, key) => Under(h, mask) == key
    case NotGood => !Good(h)
    case NotUsed => !Used(h)
  }

  /** The first entry at or after i that is wanted; the length of the cache if none is. */
  function FirstFrom(hs: seq<Word>, w: Wanted, i: nat): (k: nat)
    requires i <= |hs|
    ensures i <= k <= |hs|
    ensures k < |hs| ==> Is(w, hs[k])
    ensures forall j :: i <= j < k ==> !Is(w, hs[j])
    decreases |hs| - i
  {
    if i == |hs| || Is(w, hs[i]) then i else FirstFrom(hs, w, i + 1)
  }

  function Sought(c: Config, va: Word): Wanted
    requires ValidConfig(c)
  {
    Tagged(Mask(c.mce, c.ps), Key(c, va))
  }

  /** The entry a lookup of the address hits, or SIZE. */
  function Hit(c: Config, s: State, va: Word): (i: nat)
    requires ValidConfig(c) && Shaped(s)
    ensures i <= SIZE
  {
    FirstFrom(s.hi, Sought(c, va), 0)
  }

  predicate AllUsed(hs: seq<Word>) { FirstFrom(hs, NotUsed, 0) == |hs| }

  // ------------------------------------------------------------ operations

  /** Mark an entry used; when that leaves none unused, a flush of the used bits is due. */
  function Use(s: State, i: nat): State
    requires Shaped(s) && i < SIZE
  {
    var hs := s.hi[i := SetUsed(s.hi[i])];
    s.(hi := hs, flushU := s.flushU || AllUsed(hs))
  }

  function Lookup(c: Config, s: State, va: Word): State
    requires ValidConfig(c) && Shaped(s)
  {
    if Hit(c, s, va) < SIZE then Use(s, Hit(c, s, va)) else s
  }

  function PutAt(c: Config, s: State, va: Word, sdLo: Word, pd: Word, slot: nat): State
    requires ValidConfig(c) && Shaped(s) && slot < SIZE
  {
    var s1 := s.(lo := s.lo[slot := PdToLow(pd, sdLo)], hi := s.hi[slot := Packed(va, c.idn[Sid(va)], sdLo)]);
    Use(s1, slot).(last := slot)
  }

  /** The due flush of the used bits, which spares the entry cached last. */
  function Aged(s: State): State
    requires Shaped(s)
  {
    if s.flushU then
      s.(flushU := false,
         hi := seq(SIZE, i requires 0 <= i < SIZE => if i == s.last then s.hi[i] else ClearUsed(s.hi[i])))
    else s
  }

  /** The slot a fill takes: the first that is not good, else the first not used; SIZE if neither. */
  function Slot(s: State): (i: nat)
    requires Shaped(s)
    ensures i <= SIZE
  {
    var g := FirstFrom(s.hi, NotGood, 0);
    if g < SIZE then g else FirstFrom(s.hi, NotUsed, 0)
  }

  /** A fill; Slot == SIZE is the simulator stop. */
  function Fill(c: Config, s: State, va: Word, sdLo: Word, pd: Word): State
    requires ValidConfig(c) && Shaped(s)
  {
    var s1 := Aged(s);
    if Slot(s1) < SIZE then PutAt(c, s1, va, sdLo, pd, Slot(s1)) else s1
  }

  /** A VAR write: drop the matching entry; if it came from a contiguous segment, drop every
   entry with the same segment bits. */
  function FlushAddress(c: Config, s: State, va: Word): State
    requires ValidConfig(c) && Shaped(s)
  {
    var i := Hit(c, s, va);
    if i == SIZE then s
    else if FromContiguous(s.hi[i]) then
      s.(hi := seq(SIZE, j requires 0 <= j < SIZE =>
           if SegmentBits(s.hi[j]) == SegmentBits(s.hi[i]) then ClearBoth(s.hi[j]) else s.hi[j]))
    else
      s.(hi := s.hi[i := ClearBoth(s.hi[i])])
  }

  /** An SRAMA write: every entry of the section stops being good. */
  function FlushSection(s: State, section: Word): State
    requires Shaped(s)
  {
    s.(hi := seq(SIZE, j requires 0 <= j < SIZE =>
         if SectionBits(s.hi[j]) == section then ClearGood(s.hi[j]) else s.hi[j]))
  }

  function FlushAll(s: State): State
    requires Shaped(s)
  {
    s.(hi := seq(SIZE, j requires 0 <= j < SIZE => ClearBoth(s.hi[j])))
  }

  // ------------------------------------------------------------ invariants

  /** Two good entries never carry the same tag. */
  ghost predicate Unique(c: Config, s: State)
    requires Shaped(s)
  {
    forall i, j :: 0 <= i < j < SIZE && Good(s.hi[i]) && Good(s.hi[j]) ==> Masked(c, s.hi[i]) != Masked(c, s.hi[j])
  }

  predicate Sound(s: State) {
    && Shaped(s)
    && (AllUsed(s.hi) ==> s.flushU)
    && (Good(s.hi[s.last]) ==> Used(s.hi[s.last]))
  }

  lemma SomeUnused(hs: seq<Word>, i: nat)
    requires i < |hs| && !Used(hs[i])
    ensures !AllUsed(hs)
  {
    hide Used;
  }

  lemma UseSound(s: State, i: nat)
    requires Sound(s) && i < SIZE
    ensures Sound(Use(s, i))
  {
    hide Used, Good, SetUsed, FirstFrom;
    SetUsedFlags(s.hi[i]);
  }

  lemma PutAtSound(c: Config, s: State, va: Word, sdLo: Word, pd: Word, slot: nat)
    requires ValidConfig(c) && Shaped(s) && slot < SIZE
    ensures Sound(PutAt(c, s, va, sdLo, pd, slot))
    ensures Good(PutAt(c, s, va, sdLo, pd, slot).hi[slot])
  {
    hide Used, Good, SetUsed, FirstFrom, Packed, PdToLow, Sid;
    PackedFlags(va, c.idn[Sid(va)], sdLo);
    SetUsedFlags(Packed(va, c.idn[Sid(va)], sdLo));
  }

  lemma AgedSound(s: State)
    requires Sound(s)
    ensures Sound(Aged(s)) && !AllUsed(Aged(s).hi)
    ensures forall i :: 0 <= i < SIZE ==> Good(Aged(s).hi[i]) == Good(s.hi[i])
  {
    hide Used, Good, ClearUsed, FirstFrom;
    if s.flushU {
      forall i | 0 <= i < SIZE
        ensures Good(Aged(s).hi[i]) == Good(s.hi[i]) && (i != s.last ==> !Used(Aged(s).hi[i]))
      {
        ClearUsedFlags(s.hi[i]);
      }
      SomeUnused(Aged(s).hi, if s.last == 0 then 1 else 0);
    }
  }

  /**
   A fill always finds a slot, so the simulator stop is unreachable. A good entry is evicted
   only when all 64 are good, and then the victim is unused and is not the entry cached last.
   */
  lemma FillFindsSlot(s: State)
    requires Sound(s)
    ensures var i := Slot(Aged(s));
            && i < SIZE
            && (Good(s.hi[i]) ==> (forall j :: 0 <= j < SIZE ==> Good(s.hi[j])) && !Used(Aged(s).hi[i]) && i != s.last)
  {
    hide Used, Good, Aged;
    AgedSound(s);
    AgedKeepsLast(s);
  }

  lemma AgedKeepsLast(s: State)
    requires Shaped(s)
    ensures Shaped(Aged(s)) && Aged(s).last == s.last && Aged(s).hi[s.last] == s.hi[s.last]
  {
    hide Used, Good, ClearUsed;
  }

  // ------------------------------------------------------------ flushes only take away

  /** The entry is as it was, or is no longer good and no more used than it was. */
  predicate Less(h: Word, g: Word) { g == h || (!Good(g) && (Used(g) ==> Used(h))) }

  ghost predicate Thinner(s: State, t: State)
    requires Shaped(s)
  {
    Shaped(t) && t.flushU == s.flushU && t.last == s.last && forall i :: 0 <= i < SIZE ==> Less(s.hi[i], t.hi[i])
  }

  lemma ThinnerUnique(c: Config, s: State, t: State)
    requires Shaped(s) && Thinner(s, t) && Unique(c, s)
    ensures Unique(c, t)
  {
    hide Good, Used, Masked;
  }

  lemma LessCleared(h: Word)
    ensures Less(h, ClearBoth(h)) && Less(h, ClearGood(h))
  {
    hide Good, Used, ClearBoth, ClearGood;
    ClearedFlags(h);
  }

  lemma FlushesThin(c: Config, s: State, va: Word, section: Word)
    requires ValidConfig(c) && Shaped(s)
    ensures Thinner(s, FlushAddress(c, s, va)) && Thinner(s, FlushSection(s, section)) && Thinner(s, FlushAll(s))
  {
    hide Good, Used, ClearBoth, ClearGood, SegmentBits, SectionBits, FromContiguous, Hit;
    forall i | 0 <= i < SIZE
      ensures Less(s.hi[i], ClearBoth(s.hi[i])) && Less(s.hi[i], ClearGood(s.hi[i]))
    {
      LessCleared(s.hi[i]);
    }
  }

  /** Taking entries away never leaves all used where some was unused. */
  lemma ThinnerSound(s: State, t: State)
    requires Sound(s) && Thinner(s, t)
    ensures Sound(t)
  {
    hide Good, Used, FirstFrom;
    if !AllUsed(s.hi) {
      UnusedWitness(s.hi);
      var k := FirstFrom(s.hi, NotUsed, 0);
      assert Less(s.hi[k], t.hi[k]);
      SomeUnused(t.hi, k);
    }
    assert Less(s.hi[s.last], t.hi[s.last]);
  }

  lemma UnusedWitness(hs: seq<Word>)
    requires !AllUsed(hs)
    ensures var k := FirstFrom(hs, NotUsed, 0); k < |hs| && !Used(hs[k])
  {
    hide Used;
  }

  // ------------------------------------------------------------ tags stay distinct

  lemma UseTags(c: Config, s: State, i: nat)
    requires Shaped(s) && i < SIZE
    ensures Shaped(Use(s, i))
    ensures forall j :: 0 <= j < SIZE ==>
              Masked(c, Use(s, i).hi[j]) == Masked(c, s.hi[j]) && Good(Use(s, i).hi[j]) == Good(s.hi[j])
  {
    hide Good, Mask, Under, SetUsed, AllUsed;
    MaskBits(c.mce, c.ps);
    SetUsedFlags(s.hi[i]);
    UsedMasked(s.hi[i], Mask(c.mce, c.ps));
  }

  lemma AgedTags(c: Config, s: State)
    requires Shaped(s)
    ensures Shaped(Aged(s))
    ensures forall j :: 0 <= j < SIZE ==>
              Masked(c, Aged(s).hi[j]) == Masked(c, s.hi[j]) && Good(Aged(s).hi[j]) == Good(s.hi[j])
  {
    hide Good, Mask, Under, ClearUsed;
    MaskBits(c.mce, c.ps);
    forall j | 0 <= j < SIZE
      ensures Under(ClearUsed(s.hi[j]), Mask(c.mce, c.ps)) == Under(s.hi[j], Mask(c.mce, c.ps))
      ensures Good(ClearUsed(s.hi[j])) == Good(s.hi[j])
    {
      UsedMasked(s.hi[j], Mask(c.mce, c.ps));
      ClearUsedFlags(s.hi[j]);
    }
  }

  lemma SameTagsUnique(c: Config, s: State, t: State)
    requires Shaped(s) && Shaped(t) && Unique(c, s)
    requires forall j :: 0 <= j < SIZE ==> Masked(c, t.hi[j]) == Masked(c, s.hi[j]) && Good(t.hi[j]) == Good(s.hi[j])
    ensures Unique(c, t)
  {
    hide Good, Masked;
  }

  lemma PutAtTags(c: Config, s: State, va: Word, sdLo: Word, pd: Word, slot: nat)
    requires ValidConfig(c) && Shaped(s) && slot < SIZE
    ensures var t := PutAt(c, s, va, sdLo, pd, slot);
            && Shaped(t) && Masked(c, t.hi[slot]) == Key(c, va) && Good(t.hi[slot])
            && forall j :: 0 <= j < SIZE && j != slot ==> t.hi[j] == s.hi[j]
  {
    hide Good, Used, Mask, Under, SetUsed, AllUsed, Packed, Tag, PdToLow, Sid;
    var h := Packed(va, c.idn[Sid(va)], sdLo);
    MaskBits(c.mce, c.ps);
    PackedFlags(va, c.idn[Sid(va)], sdLo);
    PackedMatches(va, c.idn[Sid(va)], sdLo, c.mce, c.ps);
    SetUsedFlags(h);
    UsedMasked(h, Mask(c.mce, c.ps));
  }

  /** No entry of s carries the tag of the address. */
  ghost predicate Absent(c: Config, s: State, va: Word)
    requires ValidConfig(c) && Shaped(s)
  {
    forall j :: 0 <= j < SIZE ==> Masked(c, s.hi[j]) != Key(c, va)
  }

  lemma MissIsAbsent(c: Config, s: State, va: Word)
    requires ValidConfig(c) && Shaped(s)
    ensures Hit(c, s, va) == SIZE <==> Absent(c, s, va)
  {
    hide Key, Mask, Under;
    forall j | 0 <= j < SIZE
      ensures Is(Sought(c, va), s.hi[j]) <==> Masked(c, s.hi[j]) == Key(c, va)
    {
    }
  }

  /** Filling after a miss keeps tags distinct. */
  lemma FillUnique(c: Config, s: State, va: Word, sdLo: Word, pd: Word)
    requires ValidConfig(c) && Sound(s) && Unique(c, s) && Hit(c, s, va) == SIZE
    ensures Unique(c, Fill(c, s, va, sdLo, pd))
  {
    hide Good, Used, Masked, Key, Hit, PutAt, Aged, Slot, AllUsed;
    MissIsAbsent(c, s, va);
    AgedTags(c, s);
    FillFindsSlot(s);
    SameTagsUnique(c, s, Aged(s));
    PutAtTags(c, Aged(s), va, sdLo, pd, Slot(Aged(s)));
  }

  /** After a fill the address hits exactly the entry filled, which returns its descriptor. */
  lemma FillThenHit(c: Config, s: State, va: Word, sdLo: Word, pd: Word)
    requires ValidConfig(c) && Sound(s) && Hit(c, s, va) == SIZE
    ensures var t := Fill(c, s, va, sdLo, pd);
            && Sound(t) && Hit(c, t, va) == t.last < SIZE
            && LowToPd(t.lo[t.last]) == (pd & 0xffff_f832) | 1 && LowToAcc(t.lo[t.last]) == (sdLo >> 24) & 0xff
  {
    hide Good, Used, Masked, Key, Aged, Slot, AllUsed, LowToPd, LowToAcc, PdToLow, FirstFrom, Packed, Sid, SetUsed;
    hide Sought;
    MissIsAbsent(c, s, va);
    AgedTags(c, s);
    FillFindsSlot(s);
    var i := Slot(Aged(s));
    PutAtTags(c, Aged(s), va, sdLo, pd, i);
    PutAtSound(c, Aged(s), va, sdLo, pd, i);
    LowRoundTrip(pd, sdLo);
    OnlyHit(c, Fill(c, s, va, sdLo, pd), va, i);
  }

  lemma OnlyHit(c: Config, t: State, va: Word, i: nat)
    requires ValidConfig(c) && Shaped(t) && i < SIZE && Masked(c, t.hi[i]) == Key(c, va)
    requires forall j :: 0 <= j < SIZE && j != i ==> Masked(c, t.hi[j]) != Key(c, va)
    ensures Hit(c, t, va) == i
  {
    hide Key, Mask, Under;
    forall j | 0 <= j < SIZE
      ensures Is(Sought(c, va), t.hi[j]) <==> Masked(c, t.hi[j]) == Key(c, va)
    {
    }
  }

  // ------------------------------------------------------------ flushed addresses miss

  lemma MatchGood(c: Config, h: Word, va: Word)
    requires ValidConfig(c) && c.ps < 3 && Masked(c, h) == Key(c, va)
    ensures Good(h) && SectionBits(h) == (va >> 30) & 3
  {
    hide Good, SectionBits, Mask, Under, Tag, Sid;
    MaskBits(c.mce, c.ps);
    TagFlags(c.mce, va, c.idn[Sid(va)]);
    MatchIsGood(h, Tag(c.mce, va, c.idn[Sid(va)]), Mask(c.mce, c.ps));
  }

  /**
   A VAR write makes the next lookup of the address miss exactly when the page size code is
   defined: with code 3 no tag bit is compared and entry 0 answers every lookup.
   */
  lemma VarWriteMisses(c: Config, s: State, va: Word)
    requires ValidConfig(c) && Shaped(s) && Unique(c, s)
    ensures Hit(c, FlushAddress(c, s, va), va) == SIZE <==> c.ps != 3
  {
    hide Good, Masked, Key, FirstFrom, SegmentBits, FromContiguous, ClearBoth, SectionBits;
    var t := FlushAddress(c, s, va);
    FlushesThin(c, s, va, 0);
    MissIsAbsent(c, s, va);
    MissIsAbsent(c, t, va);
    if c.ps == 3 {
      UndefinedMatches(c, t.hi[0], va);
    } else if Hit(c, s, va) < SIZE {
      HitMatches(c, s, va);
      var i := Hit(c, s, va);
      ClearedFlags(s.hi[i]);
      forall j | 0 <= j < SIZE
        ensures Masked(c, t.hi[j]) != Key(c, va)
      {
        if Masked(c, t.hi[j]) == Key(c, va) {
          MatchGood(c, t.hi[j], va);
          MatchGood(c, s.hi[i], va);
        }
      }
    }
  }

  lemma HitMatches(c: Config, s: State, va: Word)
    requires ValidConfig(c) && Shaped(s) && Hit(c, s, va) < SIZE
    ensures Masked(c, s.hi[Hit(c, s, va)]) == Key(c, va)
  {
    hide Key, Mask, Under;
  }

  lemma UndefinedMatches(c: Config, h: Word, va: Word)
    requires ValidConfig(c) && c.ps == 3
    ensures Masked(c, h) == Key(c, va)
  {
    hide Tag, Mask, Sid;
    MaskBits(c.mce, c.ps);
    NothingUnder(h);
    NothingUnder(Tag(c.mce, va, c.idn[Sid(va)]));
  }

  lemma NothingUnder(h: Word)
    ensures Under(h, 0) == 0
  {
  }

  /** An SRAMA write makes every lookup in the section miss, again exactly when the page size
   code is defined. */
  lemma SramaWriteMisses(c: Config, s: State, va: Word)
    requires ValidConfig(c) && Shaped(s)
    ensures Hit(c, FlushSection(s, (va >> 30) & 3), va) == SIZE <==> c.ps != 3
  {
    hide Good, Masked, Key, FirstFrom, Hit, ClearGood, SectionBits;
    var t := FlushSection(s, (va >> 30) & 3);
    MissIsAbsent(c, t, va);
    if c.ps == 3 {
      UndefinedMatches(c, t.hi[0], va);
    } else {
      forall j | 0 <= j < SIZE
        ensures Masked(c, t.hi[j]) != Key(c, va)
      {
        if Masked(c, t.hi[j]) == Key(c, va) {
          MatchGood(c, t.hi[j], va);
          ClearedFlags(s.hi[j]);
        }
      }
    }
  }

  lemma MatchHasSegment(c: Config, h: Word, va: Word)
    requires ValidConfig(c) && c.ps < 3 && Masked(c, h) == Key(c, va)
    ensures SegmentBits(h) == SegmentBits(Tag(c.mce, va, c.idn[Sid(va)]))
  {
    hide SegmentBits, Mask, Under, Tag, Sid;
    MaskSegment(c.mce, c.ps);
    MatchSegment(h, Tag(c.mce, va, c.idn[Sid(va)]), Mask(c.mce, c.ps));
  }

  /** If the entry a VAR write hits came from a contiguous segment, no address of that segment
   hits any more. */
  lemma VarWriteFlushesSegment(c: Config, s: State, v: Word, w: Word)
    requires ValidConfig(c) && c.ps < 3 && Shaped(s) && v >> 17 == w >> 17
    requires Hit(c, s, v) < SIZE && FromContiguous(s.hi[Hit(c, s, v)])
    ensures Hit(c, FlushAddress(c, s, v), w) == SIZE
  {
    hide Good, Masked, Key, FirstFrom, Hit, ClearBoth, SegmentBits, FromContiguous, SectionBits, Tag, Sid;
    var t, i := FlushAddress(c, s, v), Hit(c, s, v);
    FlushesThin(c, s, v, 0);
    MissIsAbsent(c, t, w);
    HitMatches(c, s, v);
    MatchHasSegment(c, s.hi[i], v);
    TagSegment(c.mce, v, w, c.idn[Sid(v)], c.idn[Sid(w)]);
    forall j | 0 <= j < SIZE
      ensures Masked(c, t.hi[j]) != Key(c, w)
    {
      if Masked(c, t.hi[j]) == Key(c, w) {
        MatchGood(c, t.hi[j], w);
        MatchHasSegment(c, t.hi[j], w);
        ClearedFlags(s.hi[j]);
      }
    }
  }

  /** An entry hit since the used bits were last cleared is not the next to be evicted. */
  lemma RecentHitKept(c: Config, s: State, va: Word)
    requires ValidConfig(c) && c.ps < 3 && Sound(s) && Hit(c, s, va) < SIZE
    ensures var t, i := Lookup(c, s, va), Hit(c, s, va);
            Sound(t) && (!t.flushU || i == t.last ==> Slot(Aged(t)) != i)
  {
    hide Good, Used, Masked, Key, Hit, SetUsed, ClearUsed, AllUsed, SectionBits;
    var t, i := Lookup(c, s, va), Hit(c, s, va);
    UseSound(s, i);
    HitMatches(c, s, va);
    MatchGood(c, s.hi[i], va);
    SetUsedFlags(s.hi[i]);
    AgedKeepsLast(t);
    FillFindsSlot(t);
  }

  // ------------------------------------------------------------ runs

  /** A translation looks the address up and, on a miss that ends well, fills an entry. */
  datatype Step =
    | Translate(va: Word, descriptor: Option<Fetched>)
    | WriteVar(va: Word)
    | WriteSrama(section: Word)
    | Reset

  datatype Fetched = Fetched(sdLo: Word, pd: Word)
  /** A step under the configuration current when it is taken. */
  datatype Move = Move(c: Config, step: Step)

  function Take(s: State, m: Move): State
    requires ValidConfig(m.c) && Shaped(s)
  {
    match m.step
    case Translate(va, d) =>
      if Hit(m.c, s, va) < SIZE then Lookup(m.c, s, va)
      else if d.Some? then Fill(m.c, s, va, d.value.sdLo, d.value.pd)
      else s
    case WriteVar(va) => FlushAddress(m.c, s, va)
    case WriteSrama(section) => FlushSection(s, section)
    case Reset => FlushAll(s)
  }

  lemma TakeSound(s: State, m: Move)
    requires ValidConfig(m.c) && Sound(s)
    ensures Sound(Take(s, m))
  {
    hide Good, Used, Hit, Use, PutAt, Slot, Aged, FlushAddress, FlushSection, FlushAll, AllUsed;
    match m.step
    case Translate(va, d) =>
      if Hit(m.c, s, va) < SIZE {
        UseSound(s, Hit(m.c, s, va));
      } else if d.Some? {
        AgedSound(s);
        FillFindsSlot(s);
        PutAtSound(m.c, Aged(s), va, d.value.sdLo, d.value.pd, Slot(Aged(s)));
      }
    case WriteVar(va) =>
      FlushesThin(m.c, s, va, 0);
      ThinnerSound(s, FlushAddress(m.c, s, va));
    case WriteSrama(section) =>
      FlushesThin(m.c, s, 0, section);
      ThinnerSound(s, FlushSection(s, section));
    case Reset =>
      FlushesThin(m.c, s, 0, 0);
      ThinnerSound(s, FlushAll(s));
  }

  function Run(s: State, moves: seq<Move>): (t: State)
    requires Sound(s) && forall i :: 0 <= i < |moves| ==> ValidConfig(moves[i].c)
    ensures Sound(t)
    decreases |moves|
  {
    if moves == [] then s else
    TakeSound(s, moves[0]);
    Run(Take(s, moves[0]), moves[1..])
  }

  /** A state from power-up or reset: nothing good, nothing used. */
  predicate Fresh(s: State) {
    Shaped(s) && !s.flushU && forall i :: 0 <= i < SIZE ==> !Good(s.hi[i]) && !Used(s.hi[i])
  }

  lemma FreshSound(c: Config, s: State)
    requires Fresh(s)
    ensures Sound(s) && Unique(c, s)
  {
    hide Good, Used, Masked;
    SomeUnused(s.hi, 0);
  }

  /**
   Over every run from power-up, under any changes of configuration, the next fill finds a
   slot, and evicts a good entry only when all 64 are good, that entry being unused and not
   the one cached last.
   */
  lemma RunNeverStops(s: State, moves: seq<Move>)
    requires Fresh(s) && forall i :: 0 <= i < |moves| ==> ValidConfig(moves[i].c)
    ensures Sound(s)
    ensures var t := Run(s, moves);
            var i := Slot(Aged(t));
            && i < SIZE
            && (Good(t.hi[i]) ==> (forall j :: 0 <= j < SIZE ==> Good(t.hi[j])) && !Used(Aged(t).hi[i]) && i != t.last)
  {
    hide Good, Used, Aged, Slot, Run;
    FreshSound(Config(false, 0, [0, 0, 0, 0]), s);
    FillFindsSlot(Run(s, moves));
  }

  lemma TakeUnique(c: Config, s: State, step: Step)
    requires ValidConfig(c) && Sound(s) && Unique(c, s)
    ensures Shaped(Take(s, Move(c, step))) && Unique(c, Take(s, Move(c, step)))
  {
    hide Good, Used, Hit, Use, Fill, FlushAddress, FlushSection, FlushAll, AllUsed, Masked, Unique;
    TakeSound(s, Move(c, step));
    match step
    case Translate(va, d) =>
      if Hit(c, s, va) < SIZE {
        UseTags(c, s, Hit(c, s, va));
        SameTagsUnique(c, s, Use(s, Hit(c, s, va)));
      } else if d.Some? {
        FillUnique(c, s, va, d.value.sdLo, d.value.pd);
      }
    case WriteVar(va) =>
      FlushesThin(c, s, va, 0);
      ThinnerUnique(c, s, FlushAddress(c, s, va));
    case WriteSrama(section) =>
      FlushesThin(c, s, 0, section);
      ThinnerUnique(c, s, FlushSection(s, section));
    case Reset =>
      FlushesThin(c, s, 0, 0);
      ThinnerUnique(c, s, FlushAll(s));
  }

  /** At a fixed configuration no run ever puts two good entries with one tag in the cache. */
  lemma {:induction false} RunUnique(c: Config, s: State, moves: seq<Move>)
    requires ValidConfig(c) && Sound(s) && Unique(c, s)
    requires forall i :: 0 <= i < |moves| ==> moves[i].c == c
    ensures Unique(c, Run(s, moves))
    decreases |moves|
  {
    hide Take, Unique;
    if moves != [] {
      TakeSound(s, moves[0]);
      TakeUnique(c, s, moves[0].step);
      RunUnique(c, Take(s, moves[0]), moves[1..]);
    }
  }
}
