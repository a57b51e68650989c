/**
 What the NI card does with a packet once it has a buffer for it: store the packet, then queue
 a completion without asking whether there is room.
 */
module NiDeliver {

  import opened Ram
  import opened CioRing
  import opened CioQueues
  import opened CioDevice
  import opened NiReceive

  /** The completion of a receive buffer: length, end of the packet, and the buffer's slot. */
  function CompletionHeader(job: Job, len: nat): Header {
    Header(len % 0x1_0000, 4, 0, (job.addr as int + len) % 0x1_0000_0000)
  }

  function CompletionEntry(job: Job, len: nat): Entry {
    Encode(CompletionHeader(job, len), [0, 0, 0, job.slot])
  }

  /** Memory after the packet has been received into the buffer. */
  function Received(c: Card, m: Memory, job: Job, packet: seq<Byte>): Memory
    requires RingOk(Completion(c))
  {
    Load(Put(m, job.addr, packet), Completion(c), CompletionEntry(job, |packet|))
  }

  /** The buffer shares no byte with the ring. */
  predicate Clear(r: Ring, job: Job, len: nat) { job.addr + len <= r.base || End(r) <= job.addr }

  ghost predicate BufferClear(c: Card, job: Job, len: nat) {
    Clear(Completion(c), job, len) && forall q :: 0 <= q < c.queues ==> Clear(Request(c, q), job, len)
  }

  lemma PutClear(m: Memory, job: Job, packet: seq<Byte>, r: Ring)
    requires Clear(r, job, |packet|)
    ensures SameRing(m, Put(m, job.addr, packet), r)
  {
    hide Put, Get;
    forall x | r.base <= x < End(r)
      ensures Get(Put(m, job.addr, packet), x) == Get(m, x)
    {
      PutGet(m, job.addr, packet, x);
    }
  }

  /** Loading a ring leaves bytes outside it alone. */
  lemma LoadClear(m: Memory, r: Ring, entry: Entry, job: Job, len: nat)
    requires Good(m, r) && |entry| == r.esize && Clear(r, job, len)
    ensures Bytes(Load(m, r, entry), job.addr, len) == Bytes(m, job.addr, len)
  {
    hide Put, Bytes, ReadHalf, Advance, Pointer, Index, HalfBytes;
    LpInside(m, r);
    var t := Put(m, Top(r) + Lp(m, r), entry);
    PutElsewhere(m, Top(r) + Lp(m, r), entry, job.addr, len);
    WriteHalfElsewhere(t, r.base, Advance(r, Lp(m, r)), job.addr, len);
  }

  /** Queueing without asking: the completion is appended, or everything unread is lost. */
  lemma CompleteAnyway(c: Card, m: Memory, entry: Entry)
    requires AllGood(c, m) && |entry| == c.esize && RingOk(Completion(c))
    ensures var t, v := Load(m, Completion(c), entry), View(c, m);
            && AllGood(c, t)
            && View(c, t) == v.(completions := if Room(m, Completion(c)) then v.completions + [entry] else [])
  {
    hide AllGood, View, Good, Contents, SameRing, Request, Completion, CardOk, RingOk, Room, Load, Unload;
    GoodParts(c, m, 0);
    ViewParts(c, m, 0);
    LoadAppends(m, Completion(c), entry);
    forall p | 0 <= p < c.queues
      ensures SameRing(m, Load(m, Completion(c), entry), Request(c, p))
    {
      RingsElsewhere(c, m, p, entry);
    }
    CompletionChanged(c, m, Load(m, Completion(c), entry));
  }

  /**
   A received packet is in its buffer, and no request queue has changed. The host gets the
   completion, behind those still unread, exactly when the completion ring has room; otherwise
   that ring shows nothing unread at all, so neither it nor they arrive.
   */
  lemma DeliveredExactly(c: Card, m: Memory, job: Job, packet: seq<Byte>)
    requires AllGood(c, m) && c.esize == 12 && RingOk(Completion(c)) && BufferClear(c, job, |packet|)
    ensures AllGood(c, Received(c, m, job, packet)) && Bytes(Received(c, m, job, packet), job.addr, |packet|) == packet
    ensures View(c, Received(c, m, job, packet)).requests == View(c, m).requests
    ensures var before, after := View(c, m).completions, View(c, Received(c, m, job, packet)).completions;
            && (after == before + [CompletionEntry(job, |packet|)] <==> Room(m, Completion(c)))
            && (CompletionEntry(job, |packet|) in after <==> Room(m, Completion(c)))
            && (after == [] <==> !Room(m, Completion(c)))
  {
    hide AllGood, View, Good, Contents, SameRing, Request, Completion, RingOk, Room, Load, Put, Bytes, Encode;
    hide CompletionHeader;
    var m1, entry := Put(m, job.addr, packet), CompletionEntry(job, |packet|);
    EntryRoundTrip(CompletionHeader(job, |packet|), [0, 0, 0, job.slot]);
    GoodParts(c, m, 0);
    PutClear(m, job, packet, Completion(c));
    forall q | 0 <= q < c.queues
      ensures SameRing(m, m1, Request(c, q))
    {
      PutClear(m, job, packet, Request(c, q));
    }
    ElsewhereRefines(c, m, m1);
    SameRingContents(m, m1, Completion(c));
    CompleteAnyway(c, m1, entry);
    GoodParts(c, m1, 0);
    PutBytes(m, job.addr, packet);
    LoadClear(m1, Completion(c), entry, job, |packet|);
  }

  /** The receive path on the card's memory: a loop of byte writes, then the completion. */
  method ReceivePacket(card: CioCard, job: Job, packet: seq<Byte>)
    requires card.c.esize == 12 && card.c.cqs > 0 && RingOk(Completion(card.c))
    modifies card`mem
    ensures card.mem == Received(card.c, old(card.mem), job, packet)
  {
    hide Put, Load, Encode;
    assert packet[..0] == [];
    NothingPut(card.mem, job.addr);
    for i := 0 to |packet|
      invariant card.mem == Put(old(card.mem), job.addr, packet[..i])
    {
      PutPut(old(card.mem), job.addr, packet[..i], [packet[i]]);
      assert packet[..i] + [packet[i]] == packet[..i + 1];
      card.mem := Put(card.mem, job.addr + i, [packet[i]]);
    }
    assert packet[..|packet|] == packet;
    card.Cqueue(false, CompletionHeader(job, |packet|), [0, 0, 0, job.slot]);
  }

  lemma NothingPut(m: Memory, a: int)
    ensures Put(m, a, []) == m
  {
  }
}
