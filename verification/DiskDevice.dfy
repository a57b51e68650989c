/**
 The disk controller's registers and sector buffer and the DMA loops, updated in place.
 */
module DiskDevice {

  import opened Ram
  import opened Disk
  import opened DiskDma

  class Controller {
    const buf: array<Byte>
    const heads: nat
    var attached: bool
    var disk: map<int, Sector>
    var esn: Byte
    var etn: Byte
    var lcnh: Byte
    var lcnl: Byte
    var lhn: Byte
    var lsn: Byte
    var scnt: Byte
    var bufPtr: nat
    var end: End

    constructor (heads: nat, contents: map<int, Sector>)
      ensures Ok() && fresh(buf) && this.heads == heads && disk == contents && attached
    {
      buf := new Byte[SECTOR](_ => 0);
      this.heads := heads;
      attached, disk := true, contents;
      esn, etn, lcnh, lcnl, lhn, lsn, scnt, bufPtr, end := 0, 0, 0, 0, 0, 0, 0, 0, Going;
    }

    predicate Ok() { buf.Length == SECTOR }

    ghost function Abs(): Drive
      requires Ok()
      reads this, buf
    {
      Drive(heads, attached, disk, esn, etn, lcnh, lcnl, lhn, lsn, scnt, buf[..], bufPtr, end)
    }

    method EndRw(est: Byte)
      requires Ok()
      modifies this`end
      ensures Abs() == Finish(old(Abs()), est)
    {
      end := Ended(est, lcnh, lcnl, lhn, lsn, scnt);
    }

    method AdvanceChs()
      requires Ok()
      modifies this`lsn, this`lhn, this`lcnl, this`lcnh
      ensures Abs() == UpdateChs(old(Abs()))
    {
      var s := lsn;
      lsn := Bump(lsn);
      if s >= esn {
        lsn := 0;
        var h := lhn;
        lhn := Bump(lhn);
        if h >= etn {
          lhn := 0;
          if lcnl == 0xff {
            lcnl := 0;
            lcnh := Bump(lcnh);
          } else {
            lcnl := Bump(lcnl);
          }
        }
      }
    }

    method CurrentLba() returns (lba: int)
      requires Ok()
      ensures lba == Lba(Abs())
    {
      var cyl := lcnh as int * 256 + lcnl;
      lba := SECTORS * heads * cyl + SECTORS * lhn as int + lsn;
    }

    /** Copy a sector into the buffer. */
    method LoadBuffer(s: Sector)
      requires Ok()
      modifies buf
      ensures buf[..] == s
    {
      for i := 0 to SECTOR
        invariant forall j :: 0 <= j < i ==> buf[j] == s[j]
      {
        buf[i] := s[i];
      }
    }

    /** A read of the data register while a read-data transfer is on. */
    method IdRead() returns (data: Byte)
      requires Ok()
      modifies this, buf
      ensures GotByte(Abs(), data) == ReadByte(old(Abs()))
    {
      hide LbaOf, UpdateChs;
      data := 0;
      if !attached {
        EndRw(EST_NR);
        return;
      }
      if scnt == 0 {
        EndRw(EST_OVR);
        return;
      }
      if bufPtr == 0 || bufPtr >= SECTOR {
        bufPtr := 0;
        var lba := CurrentLba();
        if lba in disk {
          LoadBuffer(disk[lba]);
          AdvanceChs();
          assert Abs() == FillBuffer(old(Abs()));
        } else {
          EndRw(EST_DER);
          return;
        }
      }
      data := EmitByte();
    }

    /** Hand out the next byte of the buffer. */
    method EmitByte() returns (data: Byte)
      requires Ok() && bufPtr < SECTOR
      modifies this`bufPtr, this`scnt, this`end
      ensures GotByte(Abs(), data) == Emit(old(Abs()))
    {
      data := buf[bufPtr];
      bufPtr := bufPtr + 1;
      if bufPtr >= SECTOR {
        scnt := if scnt == 0 then 255 else scnt - 1;
        if scnt == 0 {
          EndRw(EST_OK);
        }
      }
    }

    /** A write of the data register while a write-data transfer is on. */
    method IdWrite(v: Byte)
      requires Ok()
      modifies this, buf
      ensures Abs() == WriteByte(old(Abs()), v)
    {
      hide LbaOf, UpdateChs;
      if scnt == 0 {
        EndRw(EST_OVR);
        return;
      }
      if bufPtr < SECTOR {
        buf[bufPtr] := v;
        bufPtr := bufPtr + 1;
        assert buf[..] == old(buf[..])[old(bufPtr) := v];
      } else {
        EndRw(EST_OVR);
        return;
      }
      if bufPtr >= SECTOR {
        bufPtr := 0;
        FlushSector();
      }
    }

    /** Write the buffer to the current block and move on. */
    method FlushSector()
      requires Ok()
      modifies this
      ensures Abs() == FlushBuffer(old(Abs()))
    {
      hide LbaOf, UpdateChs;
      var lba := CurrentLba();
      if lba in disk {
        disk := disk[lba := buf[..]];
        AdvanceChs();
        scnt := if scnt == 0 then 255 else scnt - 1;
        if scnt == 0 {
          EndRw(EST_OK);
        }
      } else {
        EndRw(EST_DER);
      }
    }

    /** The start of a read-data or write-data command. */
    method Command(a: Arguments)
      requires Ok()
      modifies this
      ensures Abs() == Begin(old(Abs()), a)
    {
      lcnh, lcnl, lhn, lsn, scnt := 255 - a.lcnhInverted, a.lcnl, a.lhn, a.lsn, a.scnt;
      bufPtr, end := 0, Going;
    }
  }

  class Dmac {
    var chan: Channel
    var wcountC: int
    var ptr: Half
    var done: bool
    var mem: Memory

    constructor (c: Channel, wcount: Half, memory: Memory)
      ensures chan == c && wcountC == wcount && ptr == 0 && !done && mem == memory
    {
      chan, wcountC, ptr, done, mem := c, wcount, 0, false, memory;
    }

    /** One round of a transfer from the device. */
    method ByteFromDevice(disk: Controller)
      requires disk.Ok()
      modifies this`wcountC, this`ptr, this`mem, disk, disk.buf
      ensures disk.Abs() == ReadByte(old(disk.Abs())).d
      ensures mem == Store(old(mem), Address(chan, old(ptr)), ReadByte(old(disk.Abs())).data)
      ensures wcountC == old(wcountC) - 1 && ptr == (old(ptr) + 1) % 0x1_0000
    {
      hide Address, ReadByte;
      wcountC := wcountC - 1;
      var addr := Address(chan, ptr);
      ptr := (ptr + 1) % 0x1_0000;
      var data := disk.IdRead();
      mem := Store(mem, addr, data);
    }

    /** One round of a transfer to the device. */
    method ByteToDevice(disk: Controller, i: int)
      requires disk.Ok()
      modifies this`wcountC, this`ptr, disk, disk.buf
      ensures disk.Abs() == WriteByte(old(disk.Abs()), Get(mem, Address(chan, old(ptr))))
      ensures wcountC == i && ptr == (old(ptr) + 1) % 0x1_0000
    {
      hide Address, WriteByte;
      wcountC := i;
      var addr := Address(chan, ptr);
      ptr := (ptr + 1) % 0x1_0000;
      disk.IdWrite(Get(mem, addr));
    }

    /** Device to memory: one byte more than the count register says. */
    method FromDevice(disk: Controller)
      requires disk.Ok() && ptr == 0 && 0 <= wcountC <= 0xffff
      modifies this, disk, disk.buf
      ensures var s := ReadMany(old(disk.Abs()), old(wcountC) + 1);
              disk.Abs() == s.d && mem == Deposit(old(mem), chan, s.bytes)
      ensures chan == old(chan) && done && wcountC == -1
    {
      hide Address, ReadByte, Deposit;
      var i := wcountC;
      ghost var n := 0;
      NothingDeposited(mem, chan);
      while i >= 0
        invariant -1 <= i <= old(wcountC) && n == old(wcountC) - i && wcountC == i && chan == old(chan)
        invariant n <= 0x1_0000 && ptr == n % 0x1_0000
        invariant disk.Abs() == ReadMany(old(disk.Abs()), n).d
        invariant mem == Deposit(old(mem), chan, ReadMany(old(disk.Abs()), n).bytes)
        decreases i + 1
      {
        DepositNext(old(mem), chan, ReadMany(old(disk.Abs()), n).bytes, ReadByte(disk.Abs()).data);
        ByteFromDevice(disk);
        n := n + 1;
        i := i - 1;
      }
      done := true;
    }

    /** Memory to device. */
    method ToDevice(disk: Controller)
      requires disk.Ok() && ptr == 0 && 0 <= wcountC <= 0xffff
      modifies this, disk, disk.buf
      ensures disk.Abs() == WriteMany(old(disk.Abs()), Gather(mem, chan, old(wcountC) + 1))
      ensures chan == old(chan) && mem == old(mem) && done && wcountC == 0
    {
      hide Address, WriteByte, WriteMany;
      var i := wcountC;
      ghost var n := 0;
      NothingWrittenYet(disk.Abs());
      while i >= 0
        invariant -1 <= i <= old(wcountC) && n == old(wcountC) - i && chan == old(chan) && mem == old(mem)
        invariant n <= 0x1_0000 && ptr == n % 0x1_0000 && (n > 0 ==> wcountC == i + 1)
        invariant disk.Abs() == WriteMany(old(disk.Abs()), Gather(mem, chan, n))
        decreases i + 1
      {
        WriteNext(old(disk.Abs()), Gather(mem, chan, n), Get(mem, Address(chan, n)));
        ByteToDevice(disk, i);
        n := n + 1;
        i := i - 1;
      }
      done := true;
    }
  }

  lemma NothingDeposited(m: Memory, c: Channel)
    ensures Deposit(m, c, []) == m
  {
  }

  lemma NothingWrittenYet(d: Drive)
    ensures WriteMany(d, []) == d
  {
  }

  lemma DepositNext(m: Memory, c: Channel, bytes: seq<Byte>, v: Byte)
    ensures Deposit(m, c, bytes + [v]) == Store(Deposit(m, c, bytes), Address(c, |bytes|), v)
  {
    assert (bytes + [v])[..|bytes|] == bytes;
  }

  lemma WriteNext(d: Drive, bytes: seq<Byte>, v: Byte)
    ensures WriteMany(d, bytes + [v]) == WriteByte(WriteMany(d, bytes), v)
  {
    assert (bytes + [v])[..|bytes|] == bytes;
  }
}
