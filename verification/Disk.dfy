/**
 The integrated disk controller's data path: a byte at a time through a sector buffer, with
 cylinder, head and sector advanced after every sector.
 */
module Disk {

  import opened Ram

  const SECTOR: nat := 512
  const SECTORS: nat := 18

  const EST_OK: Byte := 0
  const EST_OVR: Byte := 0x40
  const EST_DER: Byte := 0x20
  const EST_NR: Byte := 0x08

  type Sector = s: seq<Byte> | |s| == SECTOR witness seq(512, _ => 0)

  /** What is left in the FIFO when a transfer ends. */
  datatype End = Going | Ended(est: Byte, lcnh: Byte, lcnl: Byte, lhn: Byte, lsn: Byte, scnt: Byte)

  /** The selected unit and the controller registers a transfer uses. The disk holds the
   sectors that exist. */
  datatype Drive = Drive(
    heads: nat, attached: bool, disk: map<int, Sector>, esn: Byte, etn: Byte,
    lcnh: Byte, lcnl: Byte, lhn: Byte, lsn: Byte, scnt: Byte, buf: Sector, ptr: nat, end: End)

  function Cylinder(d: Drive): nat { d.lcnh as int * 256 + d.lcnl }

  /** The logical block address of a cylinder, head and sector. */
  function LbaOf(heads: nat, cyl: nat, head: nat, sec: nat): nat {
    SECTORS * heads * cyl + SECTORS * head + sec
  }

  function Lba(d: Drive): nat { LbaOf(d.heads, Cylinder(d), d.lhn, d.lsn) }

  function Finish(d: Drive, est: Byte): Drive {
    d.(end := Ended(est, d.lcnh, d.lcnl, d.lhn, d.lsn, d.scnt))
  }

  function Bump(b: Byte): Byte { if b == 255 then 0 else b + 1 }

  /** Advance sector, head and cylinder, wrapping at the last sector and head numbers. */
  function UpdateChs(d: Drive): Drive {
    if d.lsn < d.esn then d.(lsn := Bump(d.lsn))
    else if d.lhn < d.etn then d.(lsn := 0, lhn := Bump(d.lhn))
    else if d.lcnl == 255 then d.(lsn := 0, lhn := 0, lcnl := 0, lcnh := Bump(d.lcnh))
    else d.(lsn := 0, lhn := 0, lcnl := Bump(d.lcnl))
  }

  /** The controller was told the drive's geometry, and the position is on the drive. */
  predicate Geometry(d: Drive) {
    && 0 < d.heads <= 256 && d.esn == 17 && d.etn as int == d.heads - 1
    && d.lsn <= 17 && d.lhn as int <= d.heads - 1
  }

  predicate LastPosition(d: Drive) {
    d.lsn == 17 && d.lhn as int == d.heads - 1 && Cylinder(d) == 0xffff
  }

  /** One sector on is one block on, except at the very last position, which wraps to zero. */
  lemma UpdateAdvances(d: Drive)
    requires Geometry(d)
    ensures Geometry(UpdateChs(d))
    ensures Lba(UpdateChs(d)) == Lba(d) + 1 <==> !LastPosition(d)
  {
    hide LbaOf;
    var t := UpdateChs(d);
    NextBlock(d.heads, Cylinder(d), d.lhn, d.lsn);
    if LastPosition(d) {
      LastBlock(d.heads);
    }
  }

  lemma NextBlock(heads: nat, cyl: nat, head: nat, sec: nat)
    requires heads > 0
    ensures LbaOf(heads, cyl, head, sec + 1) == LbaOf(heads, cyl, head, sec) + 1
    ensures LbaOf(heads, cyl, head + 1, 0) == LbaOf(heads, cyl, head, 17) + 1
    ensures LbaOf(heads, cyl + 1, 0, 0) == LbaOf(heads, cyl, heads - 1, 17) + 1
  {
    assert SECTORS * heads * (cyl + 1) == SECTORS * heads * cyl + SECTORS * heads;
  }

  lemma LastBlock(heads: nat)
    requires heads > 0
    ensures LbaOf(heads, 0, 0, 0) != LbaOf(heads, 0xffff, heads - 1, 17) + 1
  {
  }

  // ------------------------------------------------------------ bytes

  datatype GotByte = GotByte(d: Drive, data: Byte)

  /** Fill the sector buffer; nothing if the sector cannot be read. */
  function FillBuffer(d: Drive): Drive
    requires Lba(d) in d.disk
  {
    UpdateChs(d.(ptr := 0, buf := d.disk[Lba(d)]))
  }

  function Emit(d: Drive): GotByte
    requires d.ptr < SECTOR
  {
    var data := d.buf[d.ptr];
    var d1 := d.(ptr := d.ptr + 1);
    if d1.ptr < SECTOR then GotByte(d1, data) else
    var d2 := d1.(scnt := if d1.scnt == 0 then 255 else d1.scnt - 1);
    GotByte(if d2.scnt == 0 then Finish(d2, EST_OK) else d2, data)
  }

  /** A read of the data register during a read-data transfer. */
  function ReadByte(d: Drive): GotByte {
    if !d.attached then GotByte(Finish(d, EST_NR), 0)
    else if d.scnt == 0 then GotByte(Finish(d, EST_OVR), 0)
    else if 0 < d.ptr < SECTOR then Emit(d)
    else if Lba(d) !in d.disk then GotByte(Finish(d.(ptr := 0), EST_DER), 0)
    else Emit(FillBuffer(d))
  }

  /** A write of the data register during a write-data transfer. */
  function WriteByte(d: Drive, v: Byte): Drive {
    if d.scnt == 0 || d.ptr >= SECTOR then Finish(d, EST_OVR) else
    var d1 := d.(buf := d.buf[d.ptr := v], ptr := d.ptr + 1);
    if d1.ptr < SECTOR then d1 else FlushBuffer(d1.(ptr := 0))
  }

  function FlushBuffer(d: Drive): Drive {
    if Lba(d) !in d.disk then Finish(d, EST_DER) else
    var d1 := UpdateChs(d.(disk := d.disk[Lba(d) := d.buf]));
    var d2 := d1.(scnt := if d1.scnt == 0 then 255 else d1.scnt - 1);
    if d2.scnt == 0 then Finish(d2, EST_OK) else d2
  }

  /** The arguments of a read-data or write-data command. */
  datatype Arguments = Arguments(lcnhInverted: Byte, lcnl: Byte, lhn: Byte, lsn: Byte, scnt: Byte)

  function Begin(d: Drive, a: Arguments): Drive {
    d.(lcnh := 255 - a.lcnhInverted, lcnl := a.lcnl, lhn := a.lhn, lsn := a.lsn, scnt := a.scnt, ptr := 0, end := Going)
  }

  // ------------------------------------------------------------ streams

  datatype Stream = Stream(d: Drive, bytes: seq<Byte>)

  /** n reads of the data register. */
  function ReadMany(d: Drive, n: nat): (s: Stream)
    ensures |s.bytes| == n
  {
    if n == 0 then Stream(d, []) else
    var s := ReadMany(d, n - 1);
    var g := ReadByte(s.d);
    Stream(g.d, s.bytes + [g.data])
  }

  /** Writes of the data register. */
  function WriteMany(d: Drive, bytes: seq<Byte>): Drive {
    if bytes == [] then d else WriteByte(WriteMany(d, bytes[..|bytes| - 1]), bytes[|bytes| - 1])
  }

  /** A transfer of count sectors from d's position is set up, and all of them exist. */
  predicate Ready(d: Drive, count: nat) {
    && Geometry(d) && d.attached && d.ptr == 0 && count > 0 && d.scnt as int == count
    && Lba(d) + count <= SECTORS * d.heads * 0x1_0000
    && forall l :: Lba(d) <= l < Lba(d) + count ==> l in d.disk
  }

  predicate Same(d: Drive, t: Drive) {
    t.heads == d.heads && t.attached == d.attached && t.esn == d.esn && t.etn == d.etn
  }

  /** Where the position is once k sectors are done; after the last it no longer matters. */
  predicate Placed(d: Drive, count: nat, k: nat, t: Drive) {
    Geometry(t) && (k < count ==> Lba(t) == Lba(d) + k)
  }

  /** The state after n bytes have been read from d. */
  predicate Reading(d: Drive, count: nat, n: nat, t: Drive)
    requires Ready(d, count) && n <= SECTOR * count
  {
    var k, j := n / SECTOR, n % SECTOR;
    && Same(d, t) && t.disk == d.disk && t.scnt as int == count - k
    && if j == 0 then (t.ptr == 0 || t.ptr == SECTOR) && Placed(d, count, k, t)
       else t.ptr == j && t.buf == d.disk[Lba(d) + k] && Placed(d, count, k + 1, t)
  }

  lemma OnDrive(d: Drive)
    requires Geometry(d) && Lba(d) + 1 < SECTORS * d.heads * 0x1_0000
    ensures !LastPosition(d)
  {
    if LastPosition(d) {
      LastLba(d.heads);
    }
  }

  lemma LastLba(heads: nat)
    requires heads > 0
    ensures LbaOf(heads, 0xffff, heads - 1, 17) + 1 == SECTORS * heads * 0x1_0000
  {
  }

  /** Finishing a sector moves the position on. */
  lemma Advances(d: Drive, count: nat, k: nat, t: Drive)
    requires Ready(d, count) && k < count && Placed(d, count, k, t) && Same(d, t)
    ensures Placed(d, count, k + 1, UpdateChs(t)) && Same(d, UpdateChs(t))
  {
    hide LbaOf, Lba, Geometry, LastPosition;
    UpdateAdvances(t);
    if k + 1 < count {
      OnDrive(t);
    }
    UpdateSame(t);
  }

  lemma UpdateSame(t: Drive)
    ensures var u := UpdateChs(t);
            Same(t, u) && u.disk == t.disk && u.scnt == t.scnt && u.buf == t.buf && u.ptr == t.ptr
  {
  }

  // ------------------------------------------------------------ reading

  lemma EmitFacts(t: Drive)
    requires t.ptr < SECTOR && t.scnt > 0
    ensures var g := Emit(t);
            && g.data == t.buf[t.ptr] && Same(t, g.d) && g.d.disk == t.disk && g.d.buf == t.buf && g.d.ptr == t.ptr + 1
            && g.d.scnt as int == (if t.ptr + 1 < SECTOR then t.scnt as int else t.scnt - 1)
            && Lba(g.d) == Lba(t) && Geometry(g.d) == Geometry(t)
  {
    hide LbaOf;
  }

  lemma Digits(n: nat)
    ensures n % SECTOR + 1 < SECTOR ==> (n + 1) / SECTOR == n / SECTOR && (n + 1) % SECTOR == n % SECTOR + 1
    ensures n % SECTOR + 1 == SECTOR ==> (n + 1) / SECTOR == n / SECTOR + 1 && (n + 1) % SECTOR == 0
  {
  }

  /** The next byte is the next byte of the block the stream has reached. */
  lemma ReadStep(d: Drive, count: nat, n: nat, t: Drive)
    requires Ready(d, count) && n < SECTOR * count && Reading(d, count, n, t)
    ensures Lba(d) + n / SECTOR in d.disk && ReadByte(t).data == d.disk[Lba(d) + n / SECTOR][n % SECTOR]
    ensures Reading(d, count, n + 1, ReadByte(t).d)
  {
    hide LbaOf, Lba, Geometry, UpdateChs, Emit;
    Digits(n);
    var k := n / SECTOR;
    if n % SECTOR == 0 {
      var u := t.(ptr := 0, buf := d.disk[Lba(d) + k]);
      SamePlace(t, u);
      Advances(d, count, k, u);
      UpdateSame(u);
      EmitFacts(UpdateChs(u));
    } else {
      EmitFacts(t);
    }
  }

  lemma SamePlace(t: Drive, u: Drive)
    requires u == t.(ptr := u.ptr, buf := u.buf, disk := u.disk)
    ensures Lba(u) == Lba(t) && Geometry(u) == Geometry(t) && Same(t, u)
  {
  }

  /**
   A read-data transfer delivers consecutive logical blocks: byte n of the stream is byte
   n % 512 of block n / 512 after the first.
   */
  lemma {:induction false} ReadStream(d: Drive, count: nat, n: nat)
    requires Ready(d, count) && n <= SECTOR * count
    ensures Reading(d, count, n, ReadMany(d, n).d)
    ensures forall i :: 0 <= i < n ==>
              Lba(d) + i / SECTOR in d.disk && ReadMany(d, n).bytes[i] == d.disk[Lba(d) + i / SECTOR][i % SECTOR]
  {
    hide LbaOf, Lba, Geometry, ReadByte;
    if n == 0 {
      SamePlace(d, d);
    } else {
      ReadStream(d, count, n - 1);
      ReadStep(d, count, n - 1, ReadMany(d, n - 1).d);
    }
  }

  // ------------------------------------------------------------ writing

  /** The state after the bytes in data have been written from d. */
  predicate Writing(d: Drive, count: nat, data: seq<Byte>, t: Drive)
    requires Ready(d, count) && |data| <= SECTOR * count
  {
    var k, j := |data| / SECTOR, |data| % SECTOR;
    && Same(d, t) && t.scnt as int == count - k && t.ptr == j && t.buf[..j] == data[SECTOR * k..]
    && Placed(d, count, k, t) && Written(d, k, data, t.disk)
  }

  /** The first k blocks hold the data; every other block is as it was. */
  predicate Written(d: Drive, k: nat, data: seq<Byte>, disk: map<int, Sector>)
    requires |data| >= SECTOR * k
  {
    && disk.Keys == d.disk.Keys
    && forall l :: l in disk ==>
         disk[l] == if Lba(d) <= l < Lba(d) + k then data[SECTOR * (l - Lba(d))..SECTOR * (l - Lba(d)) + SECTOR]
                    else d.disk[l]
  }

  lemma WrittenMore(d: Drive, k: nat, data: seq<Byte>, v: Byte, disk: map<int, Sector>)
    requires |data| >= SECTOR * k && Written(d, k, data, disk)
    ensures Written(d, k, data + [v], disk)
  {
    hide Lba;
    forall l | l in disk && Lba(d) <= l < Lba(d) + k
      ensures data[SECTOR * (l - Lba(d))..SECTOR * (l - Lba(d)) + SECTOR]
              == (data + [v])[SECTOR * (l - Lba(d))..SECTOR * (l - Lba(d)) + SECTOR]
    {
    }
  }

  lemma WrittenBlock(d: Drive, k: nat, data: seq<Byte>, disk: map<int, Sector>, block: Sector)
    requires |data| == SECTOR * (k + 1) && Written(d, k, data, disk)
    requires Lba(d) + k in disk && block == data[SECTOR * k..]
    ensures Written(d, k + 1, data, disk[Lba(d) + k := block])
  {
    hide Lba;
    assert data[SECTOR * k..] == data[SECTOR * k..SECTOR * k + SECTOR];
    assert disk[Lba(d) + k := block].Keys == disk.Keys;
  }

  lemma BufferGrows(buf: seq<Byte>, data: seq<Byte>, k: nat, j: nat, v: Byte)
    requires j < |buf| && |data| == SECTOR * k + j && buf[..j] == data[SECTOR * k..]
    ensures buf[j := v][..j + 1] == (data + [v])[SECTOR * k..]
  {
    assert buf[j := v][..j + 1] == buf[..j] + [v];
    assert (data + [v])[SECTOR * k..] == data[SECTOR * k..] + [v];
  }

  lemma WriteStep(d: Drive, count: nat, data: seq<Byte>, v: Byte, t: Drive)
    requires Ready(d, count) && |data| < SECTOR * count && Writing(d, count, data, t)
    ensures Writing(d, count, data + [v], WriteByte(t, v))
  {
    hide LbaOf, Lba, Geometry, UpdateChs, Written;
    var n := |data|;
    Digits(n);
    var k, j := n / SECTOR, n % SECTOR;
    WrittenMore(d, k, data, v, t.disk);
    var u := t.(buf := t.buf[j := v], ptr := j + 1);
    SamePlace(t, u);
    BufferGrows(t.buf, data, k, j, v);
    if j + 1 == SECTOR {
      assert u.buf[..SECTOR] == u.buf;
      SamePlace(u, u.(ptr := 0));
      FlushStep(d, count, data + [v], k, u.(ptr := 0));
    }
  }

  /** A full buffer goes to the block the stream has reached. */
  lemma FlushStep(d: Drive, count: nat, data: seq<Byte>, k: nat, t: Drive)
    requires Ready(d, count) && k < count && |data| == SECTOR * (k + 1) && t.buf == data[SECTOR * k..] && t.ptr == 0
    requires Same(d, t) && t.scnt as int == count - k && Geometry(t) && Lba(t) == Lba(d) + k
    requires Written(d, k, data, t.disk)
    ensures Writing(d, count, data, FlushBuffer(t))
  {
    hide LbaOf, Lba, Geometry, UpdateChs;
    var u := t.(disk := t.disk[Lba(t) := t.buf]);
    SamePlace(t, u);
    Advances(d, count, k, u);
    UpdateSame(u);
    WrittenBlock(d, k, data, t.disk, t.buf);
    var w := UpdateChs(u);
    LbaIgnores(w);
  }

  lemma LbaIgnores(w: Drive)
    ensures forall b: Byte, e: End :: Lba(w.(scnt := b, end := e)) == Lba(w)
    ensures forall b: Byte, e: End :: Geometry(w.(scnt := b, end := e)) == Geometry(w)
  {
  }

  /** A write-data transfer puts consecutive pieces of the data in consecutive blocks. */
  lemma {:induction false} WriteStream(d: Drive, count: nat, data: seq<Byte>)
    requires Ready(d, count) && |data| <= SECTOR * count
    ensures Writing(d, count, data, WriteMany(d, data))
    decreases |data|
  {
    hide LbaOf, Lba, Geometry, WriteByte, Written;
    if data == [] {
      NothingWritten(d);
    } else {
      var rest := data[..|data| - 1];
      WriteStream(d, count, rest);
      WriteStep(d, count, rest, data[|data| - 1], WriteMany(d, rest));
      assert data == rest + [data[|data| - 1]];
    }
  }

  lemma NothingWritten(d: Drive)
    ensures Written(d, 0, [], d.disk)
  {
  }

  // ------------------------------------------------------------ round trip

  /** Only the sectors on the disk, the geometry and the attachment outlive a transfer. */
  lemma BeginReady(d: Drive, a: Arguments, t: Drive)
    requires Ready(Begin(d, a), a.scnt) && Same(Begin(d, a), t) && t.disk.Keys == d.disk.Keys
    ensures Ready(Begin(t, a), a.scnt) && Lba(Begin(t, a)) == Lba(Begin(d, a))
  {
  }

  /** What write-data puts at a position, read-data at the same position returns. */
  lemma WriteThenRead(d: Drive, a: Arguments, data: seq<Byte>)
    requires Ready(Begin(d, a), a.scnt) && |data| == SECTOR * a.scnt
    ensures ReadMany(Begin(WriteMany(Begin(d, a), data), a), |data|).bytes == data
  {
    hide Geometry, LbaOf, Lba, WriteMany, ReadMany, Begin, Ready;
    var d0 := Begin(d, a);
    WriteStream(d0, a.scnt, data);
    var t := WriteMany(d0, data);
    WholeSectors(data, a.scnt);
    BeginDisk(d, a);
    BeginDisk(t, a);
    BeginReady(d, a, t);
    ReadStream(Begin(t, a), a.scnt, |data|);
    forall i | 0 <= i < |data|
      ensures ReadMany(Begin(t, a), |data|).bytes[i] == data[i]
    {
      BlockOfByte(i, a.scnt);
    }
  }

  lemma WholeSectors(data: seq<Byte>, count: nat)
    requires |data| == SECTOR * count
    ensures |data| / SECTOR == count
  {
  }

  lemma BeginDisk(d: Drive, a: Arguments)
    ensures Begin(d, a).disk == d.disk
  {
  }

  lemma BlockOfByte(i: nat, count: nat)
    requires i < SECTOR * count
    ensures i / SECTOR < count && SECTOR * (i / SECTOR) + i % SECTOR == i
  {
  }
}
