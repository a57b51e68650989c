/**
 WE32101 (Rev 2) memory management unit: virtual address fields, descriptors in memory,
 cache entries, and the lossy packing between them.
 */
module Mmu2Format {

  import opened WordMemory

  // ------------------------------------------------------------ virtual addresses

  function Sid(va: Word): Word { (va >> 30) & 3 }
  function Ssl(va: Word): Word { (va >> 17) & 0x1fff }
  function Sot(va: Word): Word { va & 0x1ffff }
  function Psl(va: Word): Word { (va >> 11) & 0x3f }
  function PslC(va: Word): Word { va & 0x1f800 }
  function Pot(va: Word): Word { va & 0x7ff }

  function SdTag(va: Word): Word { (va >> 20) & 0x3ff }
  function SdIdx(va: Word): Word { (va >> 17) & 7 }
  function PdTag(va: Word): Word { ((va >> 13) & 0xf) | ((va >> 14) & 0xfff0) }
  function PdIdx(va: Word): Word { ((va >> 11) & 3) | ((va >> 15) & 4) }

  /** The section number as an index. */
  function Section(va: Word): (i: nat)
    ensures i < 4
  {
    SidBound(va);
    Sid(va) as nat
  }

  /** Row of the segment descriptor cache: eight rows per section. */
  function SdRow(va: Word): (i: nat)
    ensures i < 32
  {
    RowBounds(va);
    (Sid(va) * 8 + SdIdx(va)) as nat
  }

  /** Row of the page descriptor cache. */
  function PdRow(va: Word): (i: nat)
    ensures i < 32
  {
    RowBounds(va);
    (Sid(va) * 8 + PdIdx(va)) as nat
  }

  lemma SidBound(va: Word)
    ensures Sid(va) < 4
  {
  }

  lemma RowBounds(va: Word)
    ensures Sid(va) * 8 + SdIdx(va) < 32 && Sid(va) * 8 + PdIdx(va) < 32
  {
  }

  /** The rows of a section are contiguous. */
  lemma RowSection(va: Word)
    ensures SdRow(va) / 8 == Section(va) && PdRow(va) / 8 == Section(va)
  {
    SidBound(va);
    SdRowRange(va);
    PdRowRange(va);
  }

  lemma SdRowRange(va: Word)
    ensures var b := Sid(va) * 8 + SdIdx(va);
            && (Sid(va) == 0 ==> b < 8) && (Sid(va) == 1 ==> 8 <= b < 16)
            && (Sid(va) == 2 ==> 16 <= b < 24) && (Sid(va) == 3 ==> 24 <= b < 32)
  {
  }

  lemma PdRowRange(va: Word)
    ensures var b := Sid(va) * 8 + PdIdx(va);
            && (Sid(va) == 0 ==> b < 8) && (Sid(va) == 1 ==> 8 <= b < 16)
            && (Sid(va) == 2 ==> 16 <= b < 24) && (Sid(va) == 3 ==> 24 <= b < 32)
  {
  }

  /** The segment, and the page, an address lies in. */
  function SegmentOf(va: Word): Word { va >> 17 }
  function PageOf(va: Word): Word { va >> 11 }

  lemma SameWord(x: Word, y: Word)
    requires x as nat == y as nat
    ensures x == y
  {
    assert (x as nat) as Word == x;
  }

  /** Row and tag together identify the segment. */
  lemma SdKey(v: Word, w: Word)
    requires SdRow(v) == SdRow(w) && SdTag(v) == SdTag(w)
    ensures SegmentOf(v) == SegmentOf(w)
  {
    SameWord(Sid(v) * 8 + SdIdx(v), Sid(w) * 8 + SdIdx(w));
    SdKeyBits(v, w);
  }

  lemma SdKeyBits(v: Word, w: Word)
    requires Sid(v) * 8 + SdIdx(v) == Sid(w) * 8 + SdIdx(w) && SdTag(v) == SdTag(w)
    ensures SegmentOf(v) == SegmentOf(w)
  {
  }

  /** Row and tag together identify the page. */
  lemma PdKey(v: Word, w: Word)
    requires PdRow(v) == PdRow(w) && PdTag(v) == PdTag(w)
    ensures PageOf(v) == PageOf(w)
  {
    SameWord(Sid(v) * 8 + PdIdx(v), Sid(w) * 8 + PdIdx(w));
    PdKeyBits(v, w);
  }

  lemma PdKeyBits(v: Word, w: Word)
    requires Sid(v) * 8 + PdIdx(v) == Sid(w) * 8 + PdIdx(w) && PdTag(v) == PdTag(w)
    ensures PageOf(v) == PageOf(w)
  {
  }

  /** Addresses in one segment share everything but the offset. */
  lemma SegmentFields(v: Word, w: Word)
    requires SegmentOf(v) == SegmentOf(w)
    ensures Sid(v) == Sid(w) && Ssl(v) == Ssl(w) && SdTag(v) == SdTag(w) && SdIdx(v) == SdIdx(w)
    ensures Section(v) == Section(w) && SdRow(v) == SdRow(w)
  {
    SegmentBits(v, w);
  }

  lemma SegmentBits(v: Word, w: Word)
    requires SegmentOf(v) == SegmentOf(w)
    ensures Sid(v) == Sid(w) && Ssl(v) == Ssl(w) && SdTag(v) == SdTag(w) && SdIdx(v) == SdIdx(w)
  {
    hide Sid, Ssl, SdTag, SdIdx, SegmentOf;
    SegmentShift(v);
    SegmentShift(w);
  }

  /** Each field is a function of the segment number. */
  lemma SegmentShift(v: Word)
    ensures Sid(v) == (SegmentOf(v) >> 13) & 3 && Ssl(v) == SegmentOf(v) & 0x1fff
    ensures SdTag(v) == (SegmentOf(v) >> 3) & 0x3ff && SdIdx(v) == SegmentOf(v) & 7
  {
    SectionShift(v);
    TagShift(v);
  }

  lemma SectionShift(v: Word)
    ensures Sid(v) == (SegmentOf(v) >> 13) & 3
  {
  }

  lemma TagShift(v: Word)
    ensures SdTag(v) == (SegmentOf(v) >> 3) & 0x3ff
  {
  }

  /** Addresses in one page share everything but the page offset. */
  lemma PageFields(v: Word, w: Word)
    requires PageOf(v) == PageOf(w)
    ensures SegmentOf(v) == SegmentOf(w) && Psl(v) == Psl(w) && PdTag(v) == PdTag(w) && PdRow(v) == PdRow(w)
  {
    PageBits(v, w);
  }

  lemma PageBits(v: Word, w: Word)
    requires PageOf(v) == PageOf(w)
    ensures SegmentOf(v) == SegmentOf(w) && Psl(v) == Psl(w) && PdTag(v) == PdTag(w)
    ensures Sid(v) == Sid(w) && PdIdx(v) == PdIdx(w)
  {
  }

  // ------------------------------------------------------------ segment descriptors

  predicate SdPresent(sd0: Word) { sd0 & 1 != 0 }
  predicate SdContig(sd0: Word) { sd0 & 4 != 0 }
  predicate SdTrap(sd0: Word) { sd0 & 0x10 != 0 }
  predicate SdValid(sd0: Word) { sd0 & 0x40 != 0 }
  predicate SdIndirect(sd0: Word) { sd0 & 0x80 != 0 }
  function SdSegAddr(sd1: Word): Word { sd1 & 0xffff_ffe0 }
  function SdAcc(sd0: Word): Word { (sd0 >> 24) & 0xff }
  /** Size of the segment in bytes. */
  function MaxOffset(sd0: Word): Word { (((sd0 >> 10) & 0x3fff) + 1) * 8 }

  /** The modified and referenced bits have the same places in segment and page descriptors. */
  predicate HasM(w: Word) { w & 0x2 != 0 }
  predicate HasR(w: Word) { w & 0x20 != 0 }
  function WithM(w: Word): Word { w | 0x2 }
  function WithR(w: Word): Word { w | 0x20 }

  function TaggedSize(tag: Word, sd0: Word): Word { (sd0 & 0xffff_fc00) | tag }
  function SdToSdcl(va: Word, sd0: Word): Word { TaggedSize(SdTag(va), sd0) }
  function SdToSdch(sd0: Word, sd1: Word): Word { SdSegAddr(sd1) | (sd0 & 0x1e) | 1 }
  function SdceToSd0(sdch: Word, sdcl: Word): Word { (sdcl & 0xffff_fc00) | 0x40 | (sdch & 0x1e) | 1 }
  function SdceToSd1(sdch: Word): Word { sdch & 0xffff_ffe0 }
  predicate SdGood(sdch: Word) { sdch & 1 != 0 }
  function SdceTag(sdcl: Word): Word { sdcl & 0x3ff }

  /** What a cached segment descriptor must share with the one in memory. */
  predicate SdLike(c0: Word, c1: Word, m0: Word, m1: Word) {
    && c0 & 0xffff_fc1c == m0 & 0xffff_fc1c
    && SdSegAddr(c1) == SdSegAddr(m1)
    && (HasM(c0) ==> HasM(m0))
    && (HasR(c0) ==> HasR(m0))
  }

  /** Packing loses only the R, I and software bits; V and P are implied. */
  lemma SdPacking(va: Word, m0: Word, m1: Word)
    ensures SdGood(SdToSdch(m0, m1)) && SdceTag(SdToSdcl(va, m0)) == SdTag(va)
    ensures SdLike(SdceToSd0(SdToSdch(m0, m1), SdToSdcl(va, m0)), SdceToSd1(SdToSdch(m0, m1)), m0, m1)
  {
    hide SdTag, SdToSdch, SdceToSd0, SdceToSd1, SdLike, SdGood, SdceTag, TaggedSize;
    SdTagBits(va);
    SdPackLow(SdTag(va), m0);
    SdPackHigh(SdTag(va), m0, m1);
  }

  lemma SdTagBits(va: Word)
    ensures SdTag(va) & 0xffff_fc00 == 0
  {
  }

  lemma SdPackLow(tag: Word, m0: Word)
    requires tag & 0xffff_fc00 == 0
    ensures SdceTag(TaggedSize(tag, m0)) == tag
  {
  }

  lemma SdPackHigh(tag: Word, m0: Word, m1: Word)
    requires tag & 0xffff_fc00 == 0
    ensures SdGood(SdToSdch(m0, m1))
    ensures SdLike(SdceToSd0(SdToSdch(m0, m1), TaggedSize(tag, m0)), SdceToSd1(SdToSdch(m0, m1)), m0, m1)
  {
    hide SdceToSd0, SdceToSd1, SdToSdch, TaggedSize, HasM, HasR, SdSegAddr;
    SdPackAddress(m0, m1);
    SdPackFields(tag, m0, m1);
    SdPackHistory(tag, m0, m1);
  }

  lemma SdPackAddress(m0: Word, m1: Word)
    ensures SdGood(SdToSdch(m0, m1)) && SdSegAddr(SdceToSd1(SdToSdch(m0, m1))) == SdSegAddr(m1)
  {
  }

  lemma SdPackFields(tag: Word, m0: Word, m1: Word)
    requires tag & 0xffff_fc00 == 0
    ensures SdceToSd0(SdToSdch(m0, m1), TaggedSize(tag, m0)) & 0xffff_fc1c == m0 & 0xffff_fc1c
  {
  }

  lemma SdPackHistory(tag: Word, m0: Word, m1: Word)
    requires tag & 0xffff_fc00 == 0
    ensures var c0 := SdceToSd0(SdToSdch(m0, m1), TaggedSize(tag, m0)); HasM(c0) == HasM(m0) && !HasR(c0)
  {
  }

  /** Like descriptors translate alike: kind, size, access rights and address agree. */
  lemma SdLikeFields(c0: Word, c1: Word, m0: Word, m1: Word)
    requires SdLike(c0, c1, m0, m1)
    ensures SdContig(c0) == SdContig(m0) && SdTrap(c0) == SdTrap(m0)
    ensures MaxOffset(c0) == MaxOffset(m0) && SdAcc(c0) == SdAcc(m0)
  {
    SdFieldBits(c0, m0);
  }

  lemma SdFieldBits(c0: Word, m0: Word)
    requires c0 & 0xffff_fc1c == m0 & 0xffff_fc1c
    ensures c0 & 4 == m0 & 4 && c0 & 0x10 == m0 & 0x10
    ensures (c0 >> 10) & 0x3fff == (m0 >> 10) & 0x3fff && (c0 >> 24) & 0xff == (m0 >> 24) & 0xff
  {
  }

  // ------------------------------------------------------------ page descriptors

  predicate PdPresent(pd: Word) { pd & 1 != 0 }
  predicate PdLast(pd: Word) { pd & 4 != 0 }
  predicate PdWfault(pd: Word) { pd & 0x10 != 0 }
  function PdAddrField(pd: Word): Word { pd & 0xffff_f800 }
  /** Kept in the left entry only: set when the right one was filled last. */
  predicate RightFilledLast(h: Word) { h & 0x40 != 0 }
  function NoteRight(h: Word): Word { h | 0x40 }
  function NoteLeft(h: Word): Word { h & 0xffff_ffbf }

  function TaggedAcc(tag: Word, sd0: Word): Word { (sd0 & 0xff00_0000) | tag }
  function SdToPdcxl(va: Word, sd0: Word): Word { TaggedAcc(PdTag(va), sd0) }
  function PdToPdcxh(pd: Word, sd0: Word): Word { (pd & 0xffff_f836) | (sd0 & 0x8) | 1 }
  function PdcxhToPd(h: Word): Word { (h & 0xffff_f836) | 1 }
  function PdcxlToAcc(l: Word): Word { ((l & 0xff00_0000) >> 24) & 0xff }
  function PdcxlTag(l: Word): Word { l & 0xffff }
  predicate PdGood(h: Word) { h & 1 != 0 }

  /** What a cached page descriptor must share with the one in memory. */
  predicate PdLike(c: Word, m: Word) {
    && c & 0xffff_f815 == m & 0xffff_f815
    && (HasM(c) ==> HasM(m))
    && (HasR(c) ==> HasR(m))
  }

  lemma PdPacking(va: Word, sd0: Word, pd: Word)
    requires PdPresent(pd)
    ensures PdGood(PdToPdcxh(pd, sd0)) && PdLike(PdcxhToPd(PdToPdcxh(pd, sd0)), pd)
    ensures PdcxlTag(SdToPdcxl(va, sd0)) == PdTag(va) && PdcxlToAcc(SdToPdcxl(va, sd0)) == SdAcc(sd0)
  {
    hide PdTag, PdcxlToAcc, SdAcc, PdToPdcxh, PdcxhToPd, PdLike, PdGood, PdcxlTag, SdToPdcxl;
    PdPackLow(va, sd0);
    PdPackHigh(sd0, pd);
  }

  lemma PdPackHigh(sd0: Word, pd: Word)
    requires PdPresent(pd)
    ensures PdGood(PdToPdcxh(pd, sd0)) && PdLike(PdcxhToPd(PdToPdcxh(pd, sd0)), pd)
  {
    hide PdToPdcxh, PdcxhToPd, PdLike;
    PdHighBits(pd, sd0);
    PdSamePacked(PdcxhToPd(PdToPdcxh(pd, sd0)), pd);
  }

  lemma PdPackLow(va: Word, sd0: Word)
    ensures PdcxlTag(SdToPdcxl(va, sd0)) == PdTag(va) && PdcxlToAcc(SdToPdcxl(va, sd0)) == SdAcc(sd0)
  {
    hide PdTag, PdcxlToAcc, SdAcc, PdcxlTag, TaggedAcc;
    PdTagBits(va);
    PdLowBits(PdTag(va), sd0);
  }

  lemma PdTagBits(va: Word)
    ensures PdTag(va) & 0xffff_0000 == 0
  {
  }

  lemma PdLowBits(tag: Word, sd0: Word)
    requires tag & 0xffff_0000 == 0
    ensures PdcxlTag(TaggedAcc(tag, sd0)) == tag && PdcxlToAcc(TaggedAcc(tag, sd0)) == SdAcc(sd0)
  {
  }

  lemma PdHighBits(pd: Word, sd0: Word)
    requires PdPresent(pd)
    ensures PdToPdcxh(pd, sd0) & 1 != 0
    ensures PdcxhToPd(PdToPdcxh(pd, sd0)) & 0xffff_f837 == pd & 0xffff_f837
  {
  }

  lemma PdSamePacked(c: Word, m: Word)
    requires c & 0xffff_f837 == m & 0xffff_f837
    ensures PdLike(c, m)
  {
  }

  /** The replacement bit is not part of the descriptor. */
  lemma UsedSet(h: Word)
    ensures PdcxhToPd(NoteRight(h)) == PdcxhToPd(h) && PdGood(NoteRight(h)) == PdGood(h)
  {
    hide PdcxhToPd, PdGood;
    UsedSetRaw(h);
  }

  lemma UsedSetRaw(h: Word)
    ensures PdcxhToPd(h | 0x40) == PdcxhToPd(h) && PdGood(h | 0x40) == PdGood(h)
  {
  }

  lemma UsedClear(h: Word)
    ensures PdcxhToPd(NoteLeft(h)) == PdcxhToPd(h) && PdGood(NoteLeft(h)) == PdGood(h)
  {
    hide PdcxhToPd, PdGood;
    UsedClearRaw(h);
  }

  lemma UsedClearRaw(h: Word)
    ensures PdcxhToPd(h & 0xffff_ffbf) == PdcxhToPd(h) && PdGood(h & 0xffff_ffbf) == PdGood(h)
  {
  }

  lemma PdLikeFields(c: Word, m: Word)
    requires PdLike(c, m)
    ensures PdPresent(c) == PdPresent(m) && PdLast(c) == PdLast(m) && PdWfault(c) == PdWfault(m)
    ensures PdAddrField(c) == PdAddrField(m)
  {
    PdFieldBits(c, m);
  }

  lemma PdFieldBits(c: Word, m: Word)
    requires c & 0xffff_f815 == m & 0xffff_f815
    ensures c & 1 == m & 1 && c & 4 == m & 4 && c & 0x10 == m & 0x10 && c & 0xffff_f800 == m & 0xffff_f800
  {
  }

  // ------------------------------------------------------------ history bits

  /** m became n by setting history bits only. */
  predicate Grown(m: Word, n: Word) {
    && m & 0xffff_ffdd == n & 0xffff_ffdd
    && (HasM(m) ==> HasM(n))
    && (HasR(m) ==> HasR(n))
  }

  lemma SetM(m: Word)
    ensures Grown(m, WithM(m)) && HasM(WithM(m)) && HasR(WithM(m)) == HasR(m)
    ensures HasM(m) ==> WithM(m) == m
  {
  }

  lemma SetR(m: Word)
    ensures Grown(m, WithR(m)) && HasR(WithR(m)) && HasM(WithR(m)) == HasM(m)
    ensures HasR(m) ==> WithR(m) == m
  {
  }

  lemma Merge(w: Word)
    ensures WithM(WithR(w)) == WithR(WithM(w))
  {
    assert WithM(WithR(w)) == w | 0x22;
    assert WithR(WithM(w)) == w | 0x22;
  }

  lemma GrownSd(m: Word, n: Word)
    requires Grown(m, n)
    ensures SdValid(m) == SdValid(n) && SdPresent(m) == SdPresent(n) && SdIndirect(m) == SdIndirect(n)
    ensures m & 0xffff_fc1c == n & 0xffff_fc1c
  {
  }

  lemma GrownPd(m: Word, n: Word)
    requires Grown(m, n)
    ensures m & 0xffff_f815 == n & 0xffff_f815
  {
  }

  /** The word a walk leaves behind: R set when r, M set when m. */
  function Marked(w: Word, r: bool, m: bool): Word {
    var w1 := if r then WithR(w) else w;
    if m then WithM(w1) else w1
  }

  /** Skipping the write of a bit the descriptor in hand, c, already shows changes nothing,
   as long as c shows no bit that memory lacks. */
  lemma SkippedMarks(w: Word, c: Word, r: bool, m: bool)
    requires (HasM(c) ==> HasM(w)) && (HasR(c) ==> HasR(w))
    ensures Marked(w, r && !HasR(c), m && !HasM(c)) == Marked(w, r, m)
  {
    hide HasM, HasR, WithM, WithR, Grown;
    SetR(w);
    SetM(w);
    SetM(WithR(w));
  }

  lemma MarkedGrows(w: Word, r: bool, m: bool)
    ensures Grown(w, Marked(w, r, m)) && (r ==> HasR(Marked(w, r, m))) && (m ==> HasM(Marked(w, r, m)))
  {
    hide HasM, HasR, WithM, WithR, Grown;
    SetR(w);
    SetM(w);
    SetM(WithR(w));
    GrownRefl(w);
    if r && m {
      GrownTrans(w, WithR(w), WithM(WithR(w)));
    }
  }

  lemma GrownRefl(m: Word)
    ensures Grown(m, m)
  {
  }

  lemma GrownTrans(m: Word, n: Word, k: Word)
    requires Grown(m, n) && Grown(n, k)
    ensures Grown(m, k)
  {
  }

  lemma LikeItself(m0: Word, m1: Word)
    ensures SdLike(m0, m1, m0, m1) && PdLike(m0, m0)
  {
  }

  /** Likeness survives history bits set in memory. */
  lemma SdLikeGrown(c0: Word, c1: Word, m0: Word, m1: Word, n0: Word)
    requires SdLike(c0, c1, m0, m1) && Grown(m0, n0)
    ensures SdLike(c0, c1, n0, m1)
  {
    hide HasM, HasR;
    GrownSd(m0, n0);
  }

  lemma PdLikeGrown(c: Word, m: Word, n: Word)
    requires PdLike(c, m) && Grown(m, n)
    ensures PdLike(c, n) && PdPresent(m) == PdPresent(n)
  {
    hide HasM, HasR;
    GrownPd(m, n);
    PdFieldBits(m, n);
  }

  /** Setting M in a segment cache entry sets it in the descriptor the entry stands for. */
  lemma SdMarkBits(h: Word, l: Word)
    ensures SdGood(WithM(h)) == SdGood(h) && SdceToSd1(WithM(h)) == SdceToSd1(h)
    ensures SdceToSd0(WithM(h), l) == WithM(SdceToSd0(h, l))
  {
    hide SdceToSd0;
    SdMarkWord(h, l);
  }

  lemma SdMarkWord(h: Word, l: Word)
    ensures SdceToSd0(h | 0x2, l) == SdceToSd0(h, l) | 0x2
  {
    SdMarkRaw(h, l & 0xffff_fc00);
  }

  lemma SdMarkRaw(h: Word, x: Word)
    ensures ((x | 0x40) | ((h | 0x2) & 0x1e)) | 1 == (((x | 0x40) | (h & 0x1e)) | 1) | 0x2
  {
  }

  lemma SdLikeMarked(c0: Word, c1: Word, m0: Word, m1: Word)
    requires SdLike(c0, c1, m0, m1) && HasM(m0)
    ensures SdLike(WithM(c0), c1, m0, m1)
  {
    hide HasM, HasR, WithM;
    SetM(c0);
    GrownSd(c0, WithM(c0));
  }

  lemma PdMarkBits(h: Word)
    ensures PdGood(WithM(h)) == PdGood(h) && PdGood(WithR(h)) == PdGood(h)
    ensures PdcxhToPd(WithM(h)) == WithM(PdcxhToPd(h)) && PdcxhToPd(WithR(h)) == WithR(PdcxhToPd(h))
  {
    hide PdGood, PdcxhToPd, WithM, WithR;
    PdMarkM(h);
    PdMarkR(h);
  }

  lemma PdMarkM(h: Word)
    ensures PdGood(WithM(h)) == PdGood(h) && PdcxhToPd(WithM(h)) == WithM(PdcxhToPd(h))
  {
    hide PdcxhToPd;
    PdMarkWord(h);
  }

  lemma PdMarkR(h: Word)
    ensures PdGood(WithR(h)) == PdGood(h) && PdcxhToPd(WithR(h)) == WithR(PdcxhToPd(h))
  {
    hide PdcxhToPd;
    PdMarkWord(h);
  }

  lemma PdMarkWord(h: Word)
    ensures PdcxhToPd(h | 0x2) == PdcxhToPd(h) | 0x2 && PdcxhToPd(h | 0x20) == PdcxhToPd(h) | 0x20
  {
    PdMarkRaw(h);
  }

  lemma PdMarkRaw(h: Word)
    ensures ((h | 0x2) & 0xffff_f836) | 1 == ((h & 0xffff_f836) | 1) | 0x2
    ensures ((h | 0x20) & 0xffff_f836) | 1 == ((h & 0xffff_f836) | 1) | 0x20
  {
  }

  lemma PdLikeWithM(c: Word, m: Word)
    requires PdLike(c, m) && HasM(m)
    ensures PdLike(WithM(c), m)
  {
  }

  lemma PdLikeWithR(c: Word, m: Word)
    requires PdLike(c, m) && HasR(m)
    ensures PdLike(WithR(c), m)
  {
  }

  /** Clearing the good bit makes an entry match nothing. */
  function Cleared(h: Word): Word { h & 0xffff_fffe }

  lemma Dropped(h: Word)
    ensures !SdGood(Cleared(h)) && !PdGood(Cleared(h))
  {
  }

  /** Table words: the two halves of a segment descriptor never share an address. */
  lemma DescriptorHalves(a: Word, b: Word, x: Word, y: Word)
    requires a & 0x1f == 0 && b & 0x1f == 0
    ensures a + x * 8 != b + y * 8 + 4
  {
    EightTimes(x);
    EightTimes(y);
    HalvesApart(a, b, x * 8, y * 8);
  }

  lemma EightTimes(x: Word)
    ensures (x * 8) & 7 == 0
  {
  }

  lemma HalvesApart(a: Word, b: Word, x: Word, y: Word)
    requires a & 0x1f == 0 && b & 0x1f == 0 && x & 7 == 0 && y & 7 == 0
    ensures a + x != b + y + 4
  {
    LowBits(a, x);
    LowBits(b, y);
    AddFour(b + y);
  }

  lemma LowBits(a: Word, x: Word)
    requires a & 0x1f == 0 && x & 7 == 0
    ensures (a + x) & 7 == 0
  {
  }

  lemma AddFour(z: Word)
    requires z & 7 == 0
    ensures (z + 4) & 7 == 4
  {
  }
}
