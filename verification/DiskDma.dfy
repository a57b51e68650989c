/**
 Block transfers by the DMA controller between main memory and the disk's data register.
 */
module DiskDma {

  import opened Ram
  import opened Disk
  import Powers

  const MEMORY_BASE: int := 0x200_0000

  /** A DMA channel: direction of addresses, page register, base address. */
  datatype Channel = Channel(decrement: bool, page: Half, addr: Half)

  /** Bitwise or of the low n bits. */
  function Or(a: nat, b: nat, n: nat): nat {
    if n == 0 then 0 else 2 * Or(a / 2, b / 2, n - 1) + if a % 2 == 1 || b % 2 == 1 then 1 else 0
  }

  lemma {:induction false} OrZero(p: nat, n: nat)
    requires p < Powers.Pow2(n)
    ensures Or(0, p, n) == p
  {
    if n > 0 {
      OrZero(p / 2, n - 1);
    }
  }

  /** Or-ing a one in is adding it only to an even number. */
  lemma OrOne(p: nat)
    requires p < 128
    ensures Or(1, p, 7) == if p % 2 == 0 then p + 1 else p
  {
    SevenBits();
    OrZero(p / 2, 6);
  }

  /** All ones absorb whatever is or-ed in. */
  lemma {:induction false} OrOnes(p: nat, n: nat)
    ensures Or(Powers.Pow2(n) - 1, p, n) == Powers.Pow2(n) - 1
  {
    if n > 0 {
      OrOnes(p / 2, n - 1);
    }
  }

  lemma SevenBits()
    ensures Powers.Pow2(6) == 64 && Powers.Pow2(7) == 128
  {
    assert Powers.Pow2(3) == 8;
    assert Powers.Pow2(6) == 64;
  }

  /** The page is or-ed into bits 16 to 22; the top bit of the page register is not part of it. */
  function OrPage(x: int, page: int): int {
    var h := x / 0x1_0000 % 0x80;
    x + (Or(h, page % 0x80, 7) - h) * 0x1_0000
  }

  /** The memory address of the n-th byte of a transfer. */
  function Address(c: Channel, n: int): int {
    OrPage(if c.decrement then MEMORY_BASE + c.addr - n else MEMORY_BASE + c.addr + n, c.page)
  }

  /** The first address of the channel's 64K page. */
  function PageBase(c: Channel): int { MEMORY_BASE + (c.page % 0x80) * 0x1_0000 }

  /** Where the n-th byte goes. Up to the end of the page addresses run on. A carry out of 16
   bits is or-ed into the page number, so it counts on an even page and is lost on an odd one.
   A borrow fills the page bits with ones, and whatever the page, the address lies below main
   memory. */
  function PlaceOf(c: Channel, n: int): int {
    if c.decrement then (if n <= c.addr then PageBase(c) else MEMORY_BASE) + c.addr - n
    else PageBase(c) + c.addr + n - if c.addr + n >= 0x1_0000 && c.page % 2 == 1 then 0x1_0000 else 0
  }

  /** The exact address of every byte a 16-bit count allows. */
  lemma AddressExact(c: Channel, n: int)
    requires 0 <= n < 0x1_0000
    ensures Address(c, n) == PlaceOf(c, n)
  {
    hide Or;
    var page := c.page % 0x80;
    SevenBits();
    OrZero(page, 7);
    OrOne(page);
    OrOnes(page, 7);
  }

  /** The n-th byte goes to main memory and not below it, where the feature cards are. */
  predicate OnBoard(c: Channel, n: int) { c.decrement ==> n <= c.addr }

  /** Only a decrementing transfer that borrows leaves main memory. */
  lemma OnBoardExactly(c: Channel, n: int)
    requires 0 <= n < 0x1_0000
    ensures OnBoard(c, n) <==> Address(c, n) >= MEMORY_BASE
  {
    hide Address;
    AddressExact(c, n);
  }

  /** A transfer uses no address twice, in either direction and across any page boundary. */
  lemma AddressesDiffer(c: Channel, i: int, j: int)
    requires 0 <= i < 0x1_0000 && 0 <= j < 0x1_0000 && i != j
    ensures Address(c, i) != Address(c, j)
  {
    hide Address;
    AddressExact(c, i);
    AddressExact(c, j);
  }

  /** A byte write; below main memory it goes to a feature card and leaves memory alone. */
  function Store(m: Memory, x: int, v: Byte): Memory { if x >= MEMORY_BASE then m[x := v] else m }

  /** Bytes stored one by one at the addresses of a transfer. */
  function Deposit(m: Memory, c: Channel, bytes: seq<Byte>): Memory {
    if bytes == [] then m else
    var k := |bytes| - 1;
    Store(Deposit(m, c, bytes[..k]), Address(c, k), bytes[k])
  }

  /** The bytes at the addresses of a transfer. */
  function Gather(m: Memory, c: Channel, n: nat): (s: seq<Byte>)
    ensures |s| == n
  {
    if n == 0 then [] else Gather(m, c, n - 1) + [Get(m, Address(c, n - 1))]
  }

  lemma {:induction false} GatherAt(m: Memory, c: Channel, n: nat, i: nat)
    requires i < n
    ensures Gather(m, c, n)[i] == Get(m, Address(c, i))
  {
    if i < n - 1 {
      GatherAt(m, c, n - 1, i);
    }
  }

  /** Each byte for main memory ends up at its address; memory elsewhere is unchanged. */
  lemma {:induction false} DepositAt(m: Memory, c: Channel, bytes: seq<Byte>, x: int)
    requires |bytes| <= 0x1_0000
    ensures forall i :: 0 <= i < |bytes| && OnBoard(c, i) ==> Get(Deposit(m, c, bytes), Address(c, i)) == bytes[i]
    ensures (forall i :: 0 <= i < |bytes| && OnBoard(c, i) ==> x != Address(c, i)) ==>
              Get(Deposit(m, c, bytes), x) == Get(m, x)
    decreases |bytes|
  {
    hide Address, OnBoard;
    if bytes != [] {
      var k := |bytes| - 1;
      DepositAt(m, c, bytes[..k], x);
      OnBoardExactly(c, k);
      forall i | 0 <= i < k && OnBoard(c, i)
        ensures Get(Deposit(m, c, bytes), Address(c, i)) == bytes[i]
      {
        AddressesDiffer(c, i, k);
      }
    }
  }

  /**
   A read-data command followed by a DMA transfer of any count of its bytes puts byte n % 512
   of block n / 512 after the first at the n-th address of the transfer, if that is in main
   memory, and changes memory nowhere else.
   */
  lemma ReadTransfer(d: Drive, a: Arguments, m: Memory, c: Channel, count: nat, n: nat, x: int)
    requires Ready(Begin(d, a), a.scnt) && n < count <= SECTOR * a.scnt && count <= 0x1_0000
    ensures var l, after := Lba(Begin(d, a)) + n / SECTOR, Deposit(m, c, ReadMany(Begin(d, a), count).bytes);
            && l in d.disk && (OnBoard(c, n) ==> Get(after, Address(c, n)) == d.disk[l][n % SECTOR])
            && ((forall i :: 0 <= i < count && OnBoard(c, i) ==> x != Address(c, i)) ==> Get(after, x) == Get(m, x))
  {
    hide Address, OnBoard, Lba, ReadMany, Geometry, Deposit;
    var t := Begin(d, a);
    ReadStream(t, a.scnt, count);
    DepositAt(m, c, ReadMany(t, count).bytes, x);
  }

  /**
   Write-data from memory followed by read-data at the same position into memory returns the
   bytes: the n-th address of the second transfer holds what the n-th of the first held.
   */
  lemma TransferRoundTrip(d: Drive, a: Arguments, m: Memory, out: Channel, m1: Memory, into: Channel, n: nat)
    requires Ready(Begin(d, a), a.scnt) && n < SECTOR * a.scnt <= 0x1_0000 && OnBoard(into, n)
    ensures var t := WriteMany(Begin(d, a), Gather(m, out, SECTOR * a.scnt));
            var after := Deposit(m1, into, ReadMany(Begin(t, a), SECTOR * a.scnt).bytes);
            Get(after, Address(into, n)) == Get(m, Address(out, n))
  {
    hide Address, OnBoard, Begin, ReadMany, WriteMany, Deposit, Gather, Ready;
    var bytes := Gather(m, out, SECTOR * a.scnt);
    WriteThenRead(d, a, bytes);
    DepositAt(m1, into, bytes, 0);
    GatherAt(m, out, SECTOR * a.scnt, n);
  }
}
