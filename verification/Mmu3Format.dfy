/**
 WE32201 (Rev 3) page descriptor cache: 64 fully associative entries, replaced by a scheme of
 "good" and "used" bits with a pending flush of the used bits.
 */
module Mmu3Format {

  import opened WordMemory

  // ------------------------------------------------------------ entries

  predicate Used(h: Word) { h & 0x8000_0000 != 0 }
  predicate Good(h: Word) { h & 0x4000_0000 != 0 }
  predicate FromContiguous(h: Word) { h & 0x2 != 0 }
  function SegmentBits(h: Word): Word { h & 0x03ff_c000 }
  function SectionBits(h: Word): Word { (h >> 24) & 3 }

  function SetUsed(h: Word): Word { h | 0x8000_0000 }
  function ClearUsed(h: Word): Word { h & 0x7fff_ffff }
  function ClearGood(h: Word): Word { h & 0xbfff_ffff }
  function ClearBoth(h: Word): Word { h & 0x3fff_ffff }

  /** Multiple-context mode, page size code, and the ID number of each section. */
  datatype Config = Config(mce: bool, ps: nat, idn: seq<Word>)

  predicate ValidConfig(c: Config) {
    c.ps < 4 && |c.idn| == 4 && forall i :: 0 <= i < 4 ==> c.idn[i] < 16
  }

  /** The tag bits that take part in a comparison. Page size code 3 is undefined. */
  function Mask(mce: bool, ps: nat): Word {
    if mce then
      if ps == 0 then 0x7fff_ffe0 else if ps == 1 then 0x7fff_ffc0 else if ps == 2 then 0x7fff_ff80 else 0
    else
      if ps == 0 then 0x43ff_ffe0 else if ps == 1 then 0x43ff_ffc0 else if ps == 2 then 0x43ff_ff80 else 0
  }

  function Sid(va: Word): (i: nat)
    ensures i < 4
  {
    SidBound(va);
    ((va >> 30) & 3) as nat
  }

  lemma SidBound(va: Word)
    ensures (va >> 30) & 3 < 4
  {
  }

  function TagBits(va: Word): Word { (va & 0xffff_f800) >> 6 }
  function IdBits(idn: Word): Word { idn << 26 }

  function Joined(id: Word, tag: Word): Word { (0x4000_0000 | id) | tag }
  function WithSegmentFlags(h: Word, sdLo: Word): Word { (h | ((sdLo & 0x8) >> 1)) | ((sdLo & 0x4) >> 1) }

  /** The high word stored for an address. */
  function Packed(va: Word, idn: Word, sdLo: Word): Word { WithSegmentFlags(Joined(IdBits(idn), TagBits(va)), sdLo) }

  /** The tag an address is looked up by. */
  function Tag(mce: bool, va: Word, idn: Word): Word {
    if mce then Joined(IdBits(idn), TagBits(va)) else Joined(0, TagBits(va))
  }

  function Under(h: Word, m: Word): Word { h & m }

  function Masked(c: Config, h: Word): Word { Under(h, Mask(c.mce, c.ps)) }

  function Key(c: Config, va: Word): Word
    requires ValidConfig(c)
  {
    Masked(c, Tag(c.mce, va, c.idn[Sid(va)]))
  }

  /** The page descriptor's low cache word and back: address, W, M, R and rights. */
  function PdToLow(pd: Word, sdLo: Word): Word {
    (((((pd & 0xffff_f800) >> 11) | ((pd & 0x10) << 17)) | ((pd & 0x2) << 21)) | ((pd & 0x20) << 18))
    | (sdLo & 0xff00_0000)
  }

  function LowToPd(l: Word): Word {
    (((((l & 0x1f_ffff) << 11) | ((l & 0x20_0000) >> 17)) | ((l & 0x40_0000) >> 21)) | ((l & 0x80_0000) >> 18)) | 1
  }

  function LowToAcc(l: Word): Word { (l >> 24) & 0xff }

  /** What is cached comes back: address, W, M and R as they were, P set, and the rights. */
  lemma LowRoundTrip(pd: Word, sdLo: Word)
    ensures LowToPd(PdToLow(pd, sdLo)) == (pd & 0xffff_f832) | 1
    ensures LowToAcc(PdToLow(pd, sdLo)) == (sdLo >> 24) & 0xff
  {
    hide LowToPd, LowToAcc;
    LowRoundTripPd(pd, sdLo);
    LowRoundTripAcc(pd, sdLo);
  }

  lemma LowRoundTripPd(pd: Word, sdLo: Word)
    ensures LowToPd(PdToLow(pd, sdLo)) == (pd & 0xffff_f832) | 1
  {
  }

  lemma LowRoundTripAcc(pd: Word, sdLo: Word)
    ensures LowToAcc(PdToLow(pd, sdLo)) == (sdLo >> 24) & 0xff
  {
  }

  // ------------------------------------------------------------ bit facts

  lemma PackedFlags(va: Word, idn: Word, sdLo: Word)
    requires idn < 16
    ensures Good(Packed(va, idn, sdLo)) && !Used(Packed(va, idn, sdLo))
  {
  }

  /** An entry filled for an address carries the tag the address is looked up by. */
  lemma PackedMatches(va: Word, idn: Word, sdLo: Word, mce: bool, ps: nat)
    requires idn < 16
    ensures Under(Packed(va, idn, sdLo), Mask(mce, ps)) == Under(Tag(mce, va, idn), Mask(mce, ps))
  {
    hide IdBits, TagBits, Mask, Under, Joined, WithSegmentFlags;
    MaskBits(mce, ps);
    LowBitsMasked(Joined(IdBits(idn), TagBits(va)), sdLo, Mask(mce, ps));
    if !mce {
      IdRange(idn);
      IdMasked(IdBits(idn), TagBits(va), Mask(mce, ps));
    }
  }

  lemma MaskBits(mce: bool, ps: nat)
    ensures Mask(mce, ps) & 0x8000_001f == 0
    ensures !mce ==> Mask(mce, ps) & 0x3c00_0000 == 0
    ensures ps < 3 ==> Mask(mce, ps) & 0x4300_0000 == 0x4300_0000
    ensures ps >= 3 ==> Mask(mce, ps) == 0
  {
  }

  lemma IdRange(idn: Word)
    requires idn < 16
    ensures IdBits(idn) & 0xc3ff_ffff == 0
  {
  }

  lemma IdMasked(id: Word, tag: Word, m: Word)
    requires id & 0xc3ff_ffff == 0 && m & 0x3c00_0000 == 0
    ensures Under(Joined(id, tag), m) == Under(Joined(0, tag), m)
  {
  }

  lemma LowBitsMasked(h: Word, sdLo: Word, m: Word)
    requires m & 0x8000_001f == 0
    ensures Under(WithSegmentFlags(h, sdLo), m) == Under(h, m)
  {
  }

  /** The used bit takes part in no comparison. */
  lemma UsedMasked(h: Word, m: Word)
    requires m & 0x8000_001f == 0
    ensures Under(SetUsed(h), m) == Under(h, m) && Under(ClearUsed(h), m) == Under(h, m)
  {
  }

  lemma SetUsedFlags(h: Word)
    ensures Used(SetUsed(h)) && Good(SetUsed(h)) == Good(h)
  {
  }

  lemma ClearUsedFlags(h: Word)
    ensures !Used(ClearUsed(h)) && Good(ClearUsed(h)) == Good(h)
  {
  }

  lemma ClearedFlags(h: Word)
    ensures !Good(ClearBoth(h)) && !Used(ClearBoth(h)) && !Good(ClearGood(h)) && Used(ClearGood(h)) == Used(h)
  {
  }

  /** With a defined page size only good entries match. */
  lemma MatchIsGood(h: Word, t: Word, m: Word)
    requires Under(h, m) == Under(t, m) && m & 0x4300_0000 == 0x4300_0000
    ensures Good(h) == Good(t) && SectionBits(h) == SectionBits(t)
  {
  }

  lemma TagFlags(mce: bool, va: Word, idn: Word)
    requires idn < 16
    ensures Good(Tag(mce, va, idn)) && SectionBits(Tag(mce, va, idn)) == (va >> 30) & 3
  {
    hide IdBits, Good, SectionBits, TagBits, Joined;
    IdRange(idn);
    JoinedFlags(va, IdBits(idn));
    JoinedFlags(va, 0);
  }

  lemma JoinedFlags(va: Word, id: Word)
    requires id & 0xc3ff_ffff == 0
    ensures Good(Joined(id, TagBits(va))) && SectionBits(Joined(id, TagBits(va))) == (va >> 30) & 3
  {
  }

  /** Where a match shows the segment of the address looked up. */
  lemma MatchSegment(h: Word, t: Word, m: Word)
    requires Under(h, m) == Under(t, m) && m & 0x03ff_c000 == 0x03ff_c000
    ensures SegmentBits(h) == SegmentBits(t)
  {
  }

  lemma MaskSegment(mce: bool, ps: nat)
    requires ps < 3
    ensures Mask(mce, ps) & 0x03ff_c000 == 0x03ff_c000
  {
  }

  lemma TagSegment(mce: bool, v: Word, w: Word, idn: Word, idm: Word)
    requires idn < 16 && idm < 16 && v >> 17 == w >> 17
    ensures SegmentBits(Tag(mce, v, idn)) == SegmentBits(Tag(mce, w, idm))
  {
    hide IdBits, TagBits, Joined, SegmentBits;
    IdRange(idn);
    IdRange(idm);
    JoinedSegment(IdBits(idn), v);
    JoinedSegment(IdBits(idm), w);
    JoinedSegment(0, v);
    JoinedSegment(0, w);
    SegmentOfAddress(v, w);
  }

  lemma JoinedSegment(id: Word, v: Word)
    requires id & 0xc3ff_ffff == 0
    ensures SegmentBits(Joined(id, TagBits(v))) == SegmentBits(TagBits(v))
  {
  }

  lemma SegmentOfAddress(v: Word, w: Word)
    requires v >> 17 == w >> 17
    ensures SegmentBits(TagBits(v)) == SegmentBits(TagBits(w))
  {
  }
}
