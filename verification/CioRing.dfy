/**
 Common I/O queues in main memory: a load pointer, an unload pointer and a ring of entries.
 A ring holds a FIFO sequence of entries, at most one fewer than it has room for.
 */
module CioRing {

  import opened Ram
  import Powers

  /** base is the address of the two 16-bit pointers; n entries of esize bytes follow them. */
  datatype Ring = Ring(base: int, esize: nat, n: nat)

  predicate RingOk(r: Ring) { r.esize >= 8 && r.n > 0 && Size(r) <= 0x1_0000 }

  function Size(r: Ring): nat { r.esize * r.n }
  function Top(r: Ring): int { r.base + 4 }

  function Lp(m: Memory, r: Ring): Half { ReadHalf(m, r.base) }
  function Ulp(m: Memory, r: Ring): Half { ReadHalf(m, r.base + 2) }

  /** Pointers are offsets of entries from the top. */
  predicate Pointer(r: Ring, p: int)
    requires r.esize > 0
  {
    0 <= p < Size(r) && p % r.esize == 0
  }

  predicate Good(m: Memory, r: Ring) {
    RingOk(r) && Pointer(r, Lp(m, r)) && Pointer(r, Ulp(m, r))
  }

  function Advance(r: Ring, p: int): (q: int)
    requires RingOk(r) && p >= 0
    ensures 0 <= q < Size(r)
  {
    SizePositive(r);
    (p + r.esize) % Size(r)
  }

  lemma SizePositive(r: Ring)
    requires r.esize > 0 && r.n > 0
    ensures Size(r) > 0
  {
  }

  // ------------------------------------------------------------ pointers as entry numbers

  function Index(r: Ring, p: int): int
    requires r.esize > 0
  {
    p / r.esize
  }

  function Next(i: int, n: int): int { if i + 1 == n then 0 else i + 1 }

  lemma PointerIndex(r: Ring, p: int)
    requires r.esize > 0 && Pointer(r, p)
    ensures p == Index(r, p) * r.esize && 0 <= Index(r, p) < r.n
  {
    IndexBelow(r.esize, r.n, p);
  }

  lemma IndexBelow(e: nat, n: nat, p: int)
    requires e > 0 && 0 <= p < e * n && p % e == 0
    ensures p == (p / e) * e && 0 <= p / e < n
  {
    var k := p / e;
    assert p == k * e;
    if k >= n {
      Powers.MulLe(n, k, e);
    }
  }

  lemma MultipleIsPointer(r: Ring, i: int)
    requires r.esize > 0 && 0 <= i < r.n
    ensures Pointer(r, i * r.esize) && Index(r, i * r.esize) == i
  {
    Powers.MulLe(i + 1, r.n, r.esize);
    MulDivMod(i, r.esize);
  }

  lemma MulDivMod(i: int, e: nat)
    requires e > 0 && i >= 0
    ensures i * e / e == i && i * e % e == 0 && i * e >= 0
  {
    Powers.MulLe(0, i, e);
    assert (i + 1) * e == i * e + e;
    Powers.DivUnique(i * e, e, i);
  }

  /** Advancing a pointer is moving to the next entry, around the end. */
  lemma AdvanceIndex(r: Ring, p: int)
    requires RingOk(r) && Pointer(r, p)
    ensures Pointer(r, Advance(r, p)) && Index(r, Advance(r, p)) == Next(Index(r, p), r.n)
  {
    hide Pointer, Index;
    PointerIndex(r, p);
    var i := Index(r, p);
    AdvanceMultiple(r.esize, r.n, i);
    MultipleIsPointer(r, Next(i, r.n));
  }

  lemma AdvanceMultiple(e: nat, n: nat, i: int)
    requires e > 0 && 0 <= i < n && e * n > 0
    ensures (i * e + e) % (e * n) == Next(i, n) * e
  {
    assert i * e + e == (i + 1) * e;
    if i + 1 == n {
      assert (i + 1) * e == e * n;
    } else {
      Powers.MulLe(i + 2, n, e);
      SmallMod((i + 1) * e, e * n);
    }
  }

  lemma SmallMod(x: int, y: int)
    requires 0 <= x < y
    ensures x % y == x
  {
  }

  // ------------------------------------------------------------ contents

  /** How many entries lie from u up to l, and the i-th of them. */
  function Count(u: int, l: int, n: int): int { if u <= l then l - u else l - u + n }

  function Slot(u: int, i: int, n: int): int { if u + i < n then u + i else u + i - n }

  function ItemAddr(r: Ring, k: int): int { Top(r) + k * r.esize }

  function Item(m: Memory, r: Ring, k: int): seq<Byte> { Bytes(m, ItemAddr(r, k), r.esize) }

  /** n entries from number u on. */
  function Items(m: Memory, r: Ring, u: int, c: nat): (s: seq<seq<Byte>>)
    ensures |s| == c && forall i :: 0 <= i < c ==> s[i] == Item(m, r, Slot(u, i, r.n))
  {
    seq(c, i => Item(m, r, Slot(u, i, r.n)))
  }

  function Held(m: Memory, r: Ring): (c: nat)
    requires Good(m, r)
    ensures c < r.n
  {
    PointerIndex(r, Lp(m, r));
    PointerIndex(r, Ulp(m, r));
    Count(Index(r, Ulp(m, r)), Index(r, Lp(m, r)), r.n)
  }

  /** The entries loaded and not yet unloaded, oldest first. */
  function Contents(m: Memory, r: Ring): (s: seq<seq<Byte>>)
    requires Good(m, r)
    ensures |s| == Held(m, r)
  {
    Items(m, r, Index(r, Ulp(m, r)), Held(m, r))
  }

  // ------------------------------------------------------------ operations

  predicate Empty(m: Memory, r: Ring) { Lp(m, r) == Ulp(m, r) }

  /** There is room for another entry. */
  predicate Room(m: Memory, r: Ring)
    requires RingOk(r)
  {
    Advance(r, Lp(m, r)) != Ulp(m, r)
  }

  /** Write an entry at the load pointer and advance it, without asking whether there is room. */
  function Load(m: Memory, r: Ring, entry: seq<Byte>): Memory
    requires RingOk(r)
  {
    WriteHalf(Put(m, Top(r) + Lp(m, r), entry), r.base, Advance(r, Lp(m, r)))
  }

  /** The entry at the unload pointer, and the pointer's advance. */
  function Oldest(m: Memory, r: Ring): seq<Byte> { Bytes(m, Top(r) + Ulp(m, r), r.esize) }

  function Unload(m: Memory, r: Ring): Memory
    requires RingOk(r)
  {
    WriteHalf(m, r.base + 2, Advance(r, Ulp(m, r)))
  }

  // ------------------------------------------------------------ where things lie

  /** Entries do not overlap each other or the pointers. */
  lemma ItemPlace(r: Ring, k: int)
    requires 0 <= k < r.n
    ensures Top(r) <= ItemAddr(r, k) && ItemAddr(r, k) + r.esize <= Top(r) + Size(r)
  {
    Powers.MulLe(0, k, r.esize);
    Powers.MulLe(k + 1, r.n, r.esize);
  }

  lemma ItemsApart(r: Ring, j: int, k: int)
    requires j < k
    ensures ItemAddr(r, j) + r.esize <= ItemAddr(r, k)
  {
    Powers.MulLe(j + 1, k, r.esize);
  }

  lemma WriteHalfElsewhere(m: Memory, a: int, h: Half, b: int, n: nat)
    requires b + n <= a || a + 2 <= b
    ensures Bytes(WriteHalf(m, a, h), b, n) == Bytes(m, b, n)
  {
    hide HalfBytes, Put, Bytes;
    PutElsewhere(m, a, HalfBytes(h), b, n);
  }

  lemma LoadPointers(m: Memory, r: Ring, entry: seq<Byte>)
    requires Good(m, r) && |entry| == r.esize
    ensures var t := Load(m, r, entry); Good(t, r) && Lp(t, r) == Advance(r, Lp(m, r)) && Ulp(t, r) == Ulp(m, r)
  {
    hide Put, Bytes, WriteHalf, HalfOf, Advance, Pointer;
    var lp := Lp(m, r);
    LpInside(m, r);
    var t := Put(m, Top(r) + lp, entry);
    PutElsewhere(m, Top(r) + lp, entry, r.base + 2, 2);
    WriteReadHalf(t, r.base, Advance(r, lp));
    WriteHalfElsewhere(t, r.base, Advance(r, lp), r.base + 2, 2);
    AdvanceIndex(r, lp);
  }

  lemma LpInside(m: Memory, r: Ring)
    requires Good(m, r)
    ensures 0 <= Lp(m, r) && Lp(m, r) + r.esize <= Size(r) && 0 <= Ulp(m, r) && Ulp(m, r) + r.esize <= Size(r)
    ensures Top(r) + Lp(m, r) == ItemAddr(r, Index(r, Lp(m, r)))
    ensures Top(r) + Ulp(m, r) == ItemAddr(r, Index(r, Ulp(m, r)))
  {
    hide ReadHalf, Pointer;
    PointerIndex(r, Lp(m, r));
    PointerIndex(r, Ulp(m, r));
    ItemPlace(r, Index(r, Lp(m, r)));
    ItemPlace(r, Index(r, Ulp(m, r)));
  }

  /** Loading writes the entry in its slot and leaves all other slots alone. */
  lemma LoadItem(m: Memory, r: Ring, entry: seq<Byte>, k: int)
    requires Good(m, r) && |entry| == r.esize && 0 <= k < r.n
    ensures Item(Load(m, r, entry), r, k) == if k == Index(r, Lp(m, r)) then entry else Item(m, r, k)
  {
    hide Put, Bytes, WriteHalf, ReadHalf, Advance, Pointer, Index, ItemAddr, Size;
    var lp := Lp(m, r);
    LpInside(m, r);
    PointerIndex(r, lp);
    var i := Index(r, lp);
    var t := Put(m, Top(r) + lp, entry);
    ItemPlace(r, k);
    WriteHalfElsewhere(t, r.base, Advance(r, lp), ItemAddr(r, k), r.esize);
    if k == i {
      PutBytes(m, ItemAddr(r, i), entry);
    } else {
      if k < i {
        ItemsApart(r, k, i);
      } else {
        ItemsApart(r, i, k);
      }
      PutElsewhere(m, ItemAddr(r, i), entry, ItemAddr(r, k), r.esize);
    }
  }

  lemma CountNext(u: int, l: int, n: int)
    requires 0 <= u < n && 0 <= l < n
    ensures Next(l, n) != u ==> Count(u, Next(l, n), n) == Count(u, l, n) + 1 && Slot(u, Count(u, l, n), n) == l
    ensures Next(l, n) == u ==> Count(u, Next(l, n), n) == 0 && Count(u, l, n) == n - 1
    ensures u != l ==> Count(Next(u, n), l, n) == Count(u, l, n) - 1 && Count(u, l, n) > 0
    ensures forall i :: 0 <= i < Count(u, l, n) ==> Slot(u, i, n) != l && 0 <= Slot(u, i, n) < n
    ensures u != l ==> forall i :: 0 <= i < Count(u, l, n) - 1 ==> Slot(Next(u, n), i, n) == Slot(u, i + 1, n)
  {
  }

  lemma RoomIndex(m: Memory, r: Ring)
    requires Good(m, r)
    ensures Room(m, r) <==> Next(Index(r, Lp(m, r)), r.n) != Index(r, Ulp(m, r))
    ensures Empty(m, r) <==> Index(r, Lp(m, r)) == Index(r, Ulp(m, r))
  {
    hide ReadHalf, Pointer, Index, Advance;
    AdvanceIndex(r, Lp(m, r));
    PointerIndex(r, Lp(m, r));
    PointerIndex(r, Ulp(m, r));
    PointerIndex(r, Advance(r, Lp(m, r)));
  }

  // ------------------------------------------------------------ FIFO

  /**
   Loading appends at the back exactly when there is room. Without room the load pointer
   meets the unload pointer and everything unread is lost.
   */
  lemma LoadAppends(m: Memory, r: Ring, entry: seq<Byte>)
    requires Good(m, r) && |entry| == r.esize
    ensures Good(Load(m, r, entry), r)
    ensures Contents(Load(m, r, entry), r) == if Room(m, r) then Contents(m, r) + [entry] else []
    ensures Room(m, r) <==> Held(m, r) + 1 < r.n
  {
    hide Load, ReadHalf, Pointer, Index, Advance, Item, Room, Slot, Count;
    LoadPointers(m, r, entry);
    RoomIndex(m, r);
    AdvanceIndex(r, Lp(m, r));
    PointerIndex(r, Lp(m, r));
    PointerIndex(r, Ulp(m, r));
    var u, l, t := Index(r, Ulp(m, r)), Index(r, Lp(m, r)), Load(m, r, entry);
    CountNext(u, l, r.n);
    if Room(m, r) {
      forall i | 0 <= i < Held(t, r)
        ensures Contents(t, r)[i] == (Contents(m, r) + [entry])[i]
      {
        if i < Held(m, r) {
          LoadItem(m, r, entry, Slot(u, i, r.n));
        } else {
          LoadItem(m, r, entry, l);
        }
      }
    }
  }

  lemma EmptyContents(m: Memory, r: Ring)
    requires Good(m, r)
    ensures Empty(m, r) <==> Contents(m, r) == []
  {
    hide ReadHalf, Pointer, Index, Item;
    RoomIndex(m, r);
    PointerIndex(r, Lp(m, r));
    PointerIndex(r, Ulp(m, r));
  }

  lemma UnloadShifts(m: Memory, r: Ring)
    requires Good(m, r) && !Empty(m, r)
    ensures Good(Unload(m, r), r) && Held(Unload(m, r), r) == Held(m, r) - 1
    ensures forall i :: 0 <= i < Held(Unload(m, r), r) ==> Contents(Unload(m, r), r)[i] == Contents(m, r)[i + 1]
  {
    hide ReadHalf, Pointer, Index, Advance, Item, WriteHalf, Slot, Count;
    UnloadPointers(m, r);
    RoomIndex(m, r);
    AdvanceIndex(r, Ulp(m, r));
    PointerIndex(r, Lp(m, r));
    PointerIndex(r, Ulp(m, r));
    var u, l, t := Index(r, Ulp(m, r)), Index(r, Lp(m, r)), Unload(m, r);
    CountNext(u, l, r.n);
    forall i | 0 <= i < Held(t, r)
      ensures Contents(t, r)[i] == Contents(m, r)[i + 1]
    {
      UnloadItem(m, r, Slot(u, i + 1, r.n));
    }
  }

  /** Unloading takes the oldest entry, unchanged, from the front. */
  lemma UnloadTakes(m: Memory, r: Ring)
    requires Good(m, r)
    ensures Empty(m, r) <==> Contents(m, r) == []
    ensures Good(Unload(m, r), r)
    ensures !Empty(m, r) ==> Contents(m, r) == [Oldest(m, r)] + Contents(Unload(m, r), r)
  {
    hide ReadHalf, Pointer, Index, Held, Bytes, Unload, ItemAddr, Items;
    UnloadPointers(m, r);
    EmptyContents(m, r);
    if !Empty(m, r) {
      UnloadShifts(m, r);
      LpInside(m, r);
      PointerIndex(r, Ulp(m, r));
      SlotZero(Index(r, Ulp(m, r)), r.n);
      FrontAndRest(Contents(m, r), Oldest(m, r), Contents(Unload(m, r), r));
    }
  }

  lemma FrontAndRest<T>(s: seq<T>, x: T, t: seq<T>)
    requires |s| == |t| + 1 && s[0] == x && forall i :: 0 <= i < |t| ==> t[i] == s[i + 1]
    ensures s == [x] + t
  {
  }

  lemma SlotZero(u: int, n: int)
    requires 0 <= u < n
    ensures Slot(u, 0, n) == u
  {
  }

  lemma UnloadPointers(m: Memory, r: Ring)
    requires Good(m, r)
    ensures var t := Unload(m, r); Good(t, r) && Lp(t, r) == Lp(m, r) && Ulp(t, r) == Advance(r, Ulp(m, r))
  {
    hide Put, Bytes, WriteHalf, HalfOf, Advance, Pointer;
    WriteReadHalf(m, r.base + 2, Advance(r, Ulp(m, r)));
    WriteHalfElsewhere(m, r.base + 2, Advance(r, Ulp(m, r)), r.base, 2);
    AdvanceIndex(r, Ulp(m, r));
  }

  lemma UnloadItem(m: Memory, r: Ring, k: int)
    requires Good(m, r) && 0 <= k < r.n
    ensures Item(Unload(m, r), r, k) == Item(m, r, k)
  {
    hide Bytes, WriteHalf, ReadHalf, Advance, Pointer, ItemAddr, Size;
    ItemPlace(r, k);
    WriteHalfElsewhere(m, r.base + 2, Advance(r, Ulp(m, r)), ItemAddr(r, k), r.esize);
  }
}
