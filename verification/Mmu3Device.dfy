/**
 The Rev 3 page descriptor cache as the simulator holds it: two arrays scanned and updated in
 place. Every operation is tied to its counterpart on states.
 */
module Mmu3Device {

  import opened WordMemory
  import opened Mmu3Format
  import opened Mmu3Pdc

  class Pdc {
    const pdch: array<Word>
    const pdcl: array<Word>
    var flushU: bool
    var lastCached: nat
    var c: Config

    constructor (config: Config)
      requires ValidConfig(config)
      ensures Ok() && c == config && fresh(pdch) && fresh(pdcl) && Fresh(Abs())
    {
      pdch := new Word[SIZE](_ => 0);
      pdcl := new Word[SIZE](_ => 0);
      flushU, lastCached, c := false, 0, config;
    }

    ghost predicate Ok()
      reads this, pdch, pdcl
    {
      pdch != pdcl && pdch.Length == SIZE && pdcl.Length == SIZE && lastCached < SIZE && ValidConfig(c)
    }

    ghost function Abs(): State
      reads this, pdch, pdcl
    {
      State(pdch[..], pdcl[..], flushU, lastCached)
    }

    /** Mark an entry used, then see whether any is left unused. */
    method SetUBit(index: nat)
      requires Ok() && index < SIZE
      modifies this`flushU, pdch
      ensures Ok() && Abs() == Use(old(Abs()), index)
    {
      hide Used, SetUsed;
      pdch[index] := SetUsed(pdch[index]);
      assert pdch[..] == old(pdch[..])[index := SetUsed(old(pdch[index]))];
      var i := 0;
      while i < SIZE
        invariant i <= SIZE && Ok() && flushU == old(flushU)
        invariant pdch[..] == old(pdch[..])[index := SetUsed(old(pdch[index]))]
        invariant FirstFrom(pdch[..], NotUsed, 0) == FirstFrom(pdch[..], NotUsed, i)
      {
        if !Used(pdch[i]) {
          return;
        }
        i := i + 1;
      }
      flushU := true;
    }

    /** Scan for the first entry whose tag matches; a hit is marked used. */
    method GetPdce(va: Word) returns (hit: bool, pd: Word, acc: Word, index: nat)
      requires Ok()
      modifies this`flushU, pdch
      ensures Ok() && Abs() == Lookup(c, old(Abs()), va)
      ensures hit == (Hit(c, old(Abs()), va) < SIZE)
      ensures hit ==> index == Hit(c, old(Abs()), va) && pd == LowToPd(pdcl[index]) && acc == LowToAcc(pdcl[index])
    {
      hide Key, Mask, Under, LowToPd, LowToAcc, SetUsed, AllUsed;
      hit, pd, acc, index := false, 0, 0, 0;
      var key := Key(c, va);
      var i := 0;
      while i < SIZE
        invariant i <= SIZE && Ok() && Abs() == old(Abs())
        invariant Hit(c, Abs(), va) == FirstFrom(pdch[..], Sought(c, va), i)
      {
        if Masked(c, pdch[i]) == key {
          hit, pd, acc, index := true, LowToPd(pdcl[i]), LowToAcc(pdcl[i]), i;
          SetUBit(i);
          return;
        }
        i := i + 1;
      }
    }

    method PutPdceAt(va: Word, sdLo: Word, pd: Word, slot: nat)
      requires Ok() && slot < SIZE
      modifies this`flushU, this`lastCached, pdch, pdcl
      ensures Ok() && Abs() == PutAt(c, old(Abs()), va, sdLo, pd, slot)
    {
      hide PdToLow, Packed, Sid, SetUsed, AllUsed;
      pdcl[slot] := PdToLow(pd, sdLo);
      pdch[slot] := Packed(va, c.idn[Sid(va)], sdLo);
      assert pdcl[..] == old(pdcl[..])[slot := PdToLow(pd, sdLo)];
      assert pdch[..] == old(pdch[..])[slot := Packed(va, c.idn[Sid(va)], sdLo)];
      SetUBit(slot);
      lastCached := slot;
    }

    /** Clear the used bits that are due to be cleared. */
    method ClearUBits()
      requires Ok()
      modifies this`flushU, pdch
      ensures Ok() && Abs() == Aged(old(Abs()))
    {
      hide ClearUsed;
      if flushU {
        flushU := false;
        for i := 0 to SIZE
          invariant Ok() && pdcl[..] == old(pdcl[..]) && !flushU
          invariant forall j :: 0 <= j < SIZE ==>
            pdch[j] == if j < i && j != lastCached then ClearUsed(old(pdch[j])) else old(pdch[j])
        {
          if i != lastCached {
            pdch[i] := ClearUsed(pdch[i]);
          }
        }
        assert pdch[..] == Aged(old(Abs())).hi;
      }
    }

    /** Scan for the first entry that is not good, or not used. */
    method Scan(w: Wanted) returns (k: nat)
      requires Ok()
      ensures k == FirstFrom(Abs().hi, w, 0)
    {
      hide Is;
      k := 0;
      while k < SIZE
        invariant k <= SIZE && FirstFrom(pdch[..], w, 0) == FirstFrom(pdch[..], w, k)
      {
        if Is(w, pdch[k]) {
          return;
        }
        k := k + 1;
      }
    }

    /** Cache a page descriptor. With a sound cache the stop at the end is never reached. */
    method PutPdce(va: Word, sdLo: Word, pd: Word) returns (slot: nat, stopped: bool)
      requires Ok()
      modifies this`flushU, this`lastCached, pdch, pdcl
      ensures Ok() && Abs() == Fill(c, old(Abs()), va, sdLo, pd)
      ensures !stopped ==> slot == Slot(Aged(old(Abs())))
      ensures Sound(old(Abs())) ==> !stopped
    {
      hide Aged, PutAt, AllUsed;
      if Sound(Abs()) {
        FillFindsSlot(Abs());
      }
      ClearUBits();
      stopped := false;
      slot := Scan(NotGood);
      if slot < SIZE {
        PutPdceAt(va, sdLo, pd, slot);
        return;
      }
      slot := Scan(NotUsed);
      if slot < SIZE {
        PutPdceAt(va, sdLo, pd, slot);
        return;
      }
      stopped := true;
      slot := 0;
    }

    /** A VAR write. */
    method FlushPdc(va: Word)
      requires Ok()
      modifies pdch
      ensures Ok() && Abs() == FlushAddress(c, old(Abs()), va)
    {
      hide ClearBoth, SegmentBits, FromContiguous, Sought;
      var i := Scan(Sought(c, va));
      if i == SIZE {
        return;
      }
      if FromContiguous(pdch[i]) {
        FlushSegment(SegmentBits(pdch[i]));
      } else {
        pdch[i] := ClearBoth(pdch[i]);
      }
      assert pdch[..] == FlushAddress(c, old(Abs()), va).hi;
    }

    /** Drop every entry with the given segment bits. */
    method FlushSegment(bits: Word)
      requires Ok()
      modifies pdch
      ensures forall j :: 0 <= j < SIZE ==>
        pdch[j] == if SegmentBits(old(pdch[j])) == bits then ClearBoth(old(pdch[j])) else old(pdch[j])
    {
      hide ClearBoth, SegmentBits;
      for i := 0 to SIZE
        invariant forall j :: 0 <= j < SIZE ==>
          pdch[j] == if j < i && SegmentBits(old(pdch[j])) == bits then ClearBoth(old(pdch[j])) else old(pdch[j])
      {
        if SegmentBits(pdch[i]) == bits {
          pdch[i] := ClearBoth(pdch[i]);
        }
      }
    }

    /** The page descriptor part of an SRAMA write. */
    method FlushSectionEntries(section: Word)
      requires Ok()
      modifies pdch
      ensures Ok() && Abs() == FlushSection(old(Abs()), section)
    {
      hide ClearGood, SectionBits;
      for i := 0 to SIZE
        invariant Ok() && pdcl[..] == old(pdcl[..])
        invariant forall j :: 0 <= j < SIZE ==>
          pdch[j] == if j < i && SectionBits(old(pdch[j])) == section then ClearGood(old(pdch[j])) else old(pdch[j])
      {
        if SectionBits(pdch[i]) == section {
          pdch[i] := ClearGood(pdch[i]);
        }
      }
      assert pdch[..] == FlushSection(old(Abs()), section).hi;
    }

    method FlushCaches()
      requires Ok()
      modifies pdch
      ensures Ok() && Abs() == FlushAll(old(Abs()))
    {
      hide ClearBoth;
      for i := 0 to SIZE
        invariant Ok() && pdcl[..] == old(pdcl[..])
        invariant forall j :: 0 <= j < SIZE ==> pdch[j] == if j < i then ClearBoth(old(pdch[j])) else old(pdch[j])
      {
        pdch[i] := ClearBoth(pdch[i]);
      }
      assert pdch[..] == FlushAll(old(Abs())).hi;
    }
  }
}
