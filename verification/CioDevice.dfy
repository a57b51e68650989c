/**
 The queue routines of a Common I/O card, working on main memory in place.
 */
module CioDevice {

  import opened Options
  import opened Ram
  import opened CioRing
  import opened CioQueues
  import opened CioServe

  /** The fixed part of a queue entry. */
  datatype Header = Header(byteCount: Half, subdevice: Byte, opcode: Byte, address: Word)

  function HeaderBytes(h: Header): (s: seq<Byte>)
    ensures |s| == 8
  {
    HalfBytes(h.byteCount) + [h.subdevice, h.opcode] + WordBytes(h.address)
  }

  function HeaderOf(s: seq<Byte>): Header
    requires |s| >= 8
  {
    Header(HalfOf(s[..2]), s[2], s[3], WordOf(s[4..8]))
  }

  /** An entry is its header followed by application data. */
  function Encode(h: Header, app: seq<Byte>): Entry { HeaderBytes(h) + app }

  /** What is queued is what is decoded. */
  lemma EntryRoundTrip(h: Header, app: seq<Byte>)
    ensures |Encode(h, app)| == 8 + |app| && HeaderOf(Encode(h, app)) == h && Encode(h, app)[8..] == app
  {
    hide HalfOf, WordOf, HalfBytes, WordBytes;
    HalfRoundTrip(h.byteCount);
    WordRoundTrip(h.address);
    var s := Encode(h, app);
    assert s[..2] == HalfBytes(h.byteCount) && s[4..8] == WordBytes(h.address);
  }

  /** The CMD/STAT flag is the top bit of the subdevice byte. */
  function Flagged(h: Header, command: bool): Header {
    if command && h.subdevice < 128 then h.(subdevice := h.subdevice + 128) else h
  }

  lemma BytesSplit(m: Memory, a: int, n: nat, k: nat)
    requires k <= n
    ensures Bytes(m, a, n)[..k] == Bytes(m, a, k) && Bytes(m, a, n)[k..] == Bytes(m, a + k, n - k)
  {
    hide Get;
    forall i | 0 <= i < n - k
      ensures Bytes(m, a, n)[k..][i] == Bytes(m, a + k, n - k)[i]
    {
      assert a + (k + i) == a + k + i;
    }
  }

  class CioCard {
    var mem: Memory
    var c: Card

    constructor (memory: Memory, card: Card)
      ensures mem == memory && c == card
    {
      mem, c := memory, card;
    }

    /** Queue a completion. Nothing here asks whether there is room; in a queue of size zero
     the load pointer stays. */
    method Cqueue(command: bool, cqe: Header, app: seq<Byte>)
      requires |app| + 8 == c.esize && (c.cqs > 0 ==> RingOk(Completion(c)))
      modifies this`mem
      ensures var r, entry := Completion(c), Encode(Flagged(cqe, command), app);
              mem == if c.cqs > 0 then Load(old(mem), r, entry) else Put(old(mem), Top(r) + Lp(old(mem), r), entry)
    {
      hide Put, HalfBytes, WordBytes, ReadHalf, Advance;
      var h := Flagged(cqe, command);
      var cqp := c.cqp;
      var top := cqp + c.esize + 4;
      var lp := ReadHalf(mem, cqp + c.esize);
      var a := top + lp;
      mem := WriteHalf(mem, a, h.byteCount);
      mem := Put(mem, a + 2, [h.subdevice]);
      mem := Put(mem, a + 3, [h.opcode]);
      mem := WriteWord(mem, a + 4, h.address);
      HeaderWritten(old(mem), a, h);
      assert HeaderBytes(h) + app[..0] == HeaderBytes(h);
      var i := 0;
      while i < |app|
        invariant i <= |app| && mem == Put(old(mem), a, HeaderBytes(h) + app[..i])
      {
        mem := Put(mem, a + 8 + i, [app[i]]);
        PutPut(old(mem), a, HeaderBytes(h) + app[..i], [app[i]]);
        assert HeaderBytes(h) + app[..i] + [app[i]] == HeaderBytes(h) + app[..i + 1];
        i := i + 1;
      }
      assert app[..|app|] == app;
      if c.cqs > 0 {
        lp := Advance(Completion(c), lp);
        mem := WriteHalf(mem, cqp + c.esize, lp);
      }
    }

    /** Take the oldest entry of a request queue, if there is one; in a queue of size zero the
     unload pointer stays. */
    method Rqueue(qnum: nat) returns (found: bool, rqe: Header, app: seq<Byte>)
      requires c.esize >= 8 && (c.rqs > 0 ==> RingOk(Request(c, qnum)))
      modifies this`mem
      ensures var r := Request(c, qnum);
              && found == !Empty(old(mem), r)
              && (found ==> Oldest(old(mem), r) == Encode(rqe, app))
              && mem == if found && c.rqs > 0 then Unload(old(mem), r) else old(mem)
    {
      hide Bytes, HalfOf, WordOf, Advance, Put, HalfBytes;
      var r := Request(c, qnum);
      var rqp := c.rqp + c.esize + qnum * Stride(c);
      var lp, ulp := ReadHalf(mem, rqp), ReadHalf(mem, rqp + 2);
      rqe, app := Header(0, 0, 0, 0), [];
      found := lp != ulp;
      if !found {
        return;
      }
      var a := rqp + 4 + ulp;
      rqe := Header(ReadHalf(mem, a), Get(mem, a + 2), Get(mem, a + 3), ReadWord(mem, a + 4));
      var i := 0;
      while i < c.esize - 8
        invariant i <= c.esize - 8 && app == Bytes(mem, a + 8, i) && mem == old(mem)
      {
        app := app + [Get(mem, a + 8 + i)];
        i := i + 1;
        BytesGrow(mem, a + 8, i);
      }
      HeaderReadBack(mem, a, c.esize);
      if c.rqs > 0 {
        mem := WriteHalf(mem, rqp + 2, Advance(r, ulp));
      }
    }

    method CqueueAvail() returns (room: bool)
      requires RingOk(Completion(c))
      ensures room == Room(mem, Completion(c))
    {
      hide ReadHalf;
      var r := Completion(c);
      var lp, ulp := ReadHalf(mem, c.cqp + c.esize), ReadHalf(mem, c.cqp + c.esize + 2);
      room := Advance(r, lp) != ulp;
    }

    /** The full-job handler: serve general requests while there is room for completions. */
    method Full(handle: Handler)
      requires AllGood(c, mem) && c.queues > 0 && Polite(c, handle)
      modifies this`mem
      ensures CardRings(c) && mem == Serve(c, old(mem), handle)
    {
      hide AllGood, View, Served, Polite, Load, Unload, Oldest, Empty, Room, RingOk, CardRings, Request, Completion;
      GoodParts(c, mem, GENERAL);
      CardPositive(c);
      var room := CqueueAvail();
      while true
        invariant AllGood(c, mem) && CardRings(c) && RingOk(Completion(c)) && room == Room(mem, Completion(c))
        invariant Serve(c, mem, handle) == Serve(c, old(mem), handle)
        decreases |View(c, mem).requests[0]|
      {
        GoodParts(c, mem, GENERAL);
        if !room {
          return;
        }
        ghost var before := mem;
        var found, rqe, app := Rqueue(GENERAL);
        if !found {
          return;
        }
        ServeOneServes(c, before, handle);
        ServedLess(View(c, before), View(c, ServeOne(c, before, handle)));
        var reply := handle(mem, Encode(rqe, app));
        mem := if reply.completion.Some? then Load(reply.after, Completion(c), reply.completion.value) else reply.after;
        GoodParts(c, mem, GENERAL);
        room := CqueueAvail();
      }
    }
  }

  lemma CardPositive(c: Card)
    requires CardRings(c)
    ensures c.esize >= 8 && c.rqs > 0 && c.cqs > 0
  {
  }

  lemma ServedLess(v: Queues, w: Queues)
    requires Served(v, w)
    ensures |w.requests| > 0 && |v.requests| > 0 && |w.requests[0]| < |v.requests[0]|
  {
  }

  lemma HeaderWritten(m: Memory, a: int, h: Header)
    ensures WriteWord(Put(Put(WriteHalf(m, a, h.byteCount), a + 2, [h.subdevice]), a + 3, [h.opcode]), a + 4, h.address)
            == Put(m, a, HeaderBytes(h))
  {
    hide Put, HalfBytes, WordBytes;
    var x := HalfBytes(h.byteCount);
    PutPut(m, a, x, [h.subdevice]);
    PutPut(m, a, x + [h.subdevice], [h.opcode]);
    assert x + [h.subdevice] + [h.opcode] == x + [h.subdevice, h.opcode];
    PutPut(m, a, x + [h.subdevice, h.opcode], WordBytes(h.address));
  }

  lemma BytesGrow(m: Memory, a: int, n: nat)
    requires n > 0
    ensures Bytes(m, a, n) == Bytes(m, a, n - 1) + [Get(m, a + n - 1)]
  {
  }

  lemma HeaderBack(s: seq<Byte>)
    requires |s| >= 8
    ensures Encode(HeaderOf(s), s[8..]) == s
  {
    hide HalfOf, WordOf, HalfBytes, WordBytes;
    HalfBack(s[..2]);
    WordBack(s[4..8]);
  }

  lemma HeaderReadBack(m: Memory, a: int, n: nat)
    requires n >= 8
    ensures Bytes(m, a, n)
            == Encode(Header(ReadHalf(m, a), Get(m, a + 2), Get(m, a + 3), ReadWord(m, a + 4)), Bytes(m, a + 8, n - 8))
  {
    hide HalfOf, WordOf, Get, Encode;
    var s := Bytes(m, a, n);
    BytesSplit(m, a, n, 8);
    BytesSplit(m, a, n, 2);
    BytesSplit(m, a, 8, 4);
    assert s[4..8] == Bytes(m, a, 8)[4..];
    HeaderBack(s);
  }
}
