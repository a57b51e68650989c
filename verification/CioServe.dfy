/**
 The guarded service loop of a card: while the completion queue has room, take a request and
 handle it. Whatever the handlers do outside the queues, no unread completion is overwritten.
 */
module CioServe {

  import opened Options
  import opened Ram
  import opened CioRing
  import opened CioQueues

  /** What handling one request does: memory afterwards, and at most one completion to queue. */
  datatype Reply = Reply(after: Memory, completion: Option<Entry>)

  type Handler = (Memory, Entry) -> Reply

  /** Job buffers lie outside the queues. */
  ghost predicate Keeps(c: Card, m: Memory, r: Reply) {
    && OutsideQueues(c, m, r.after)
    && (r.completion.Some? ==> |r.completion.value| == c.esize)
  }

  ghost predicate OutsideQueues(c: Card, m: Memory, t: Memory) {
    SameRing(m, t, Completion(c)) && forall q :: 0 <= q < c.queues ==> SameRing(m, t, Request(c, q))
  }

  ghost predicate Polite(c: Card, handle: Handler) {
    forall m: Memory, e: Entry :: Keeps(c, m, handle(m, e))
  }

  const GENERAL: nat := 0

  /** Take the oldest general request, handle it, and queue its completion. */
  function ServeOne(c: Card, m: Memory, handle: Handler): Memory
    requires CardRings(c)
  {
    RingsOk(c, GENERAL);
    var reply := handle(Unload(m, Request(c, GENERAL)), Oldest(m, Request(c, GENERAL)));
    if reply.completion.Some? then Load(reply.after, Completion(c), reply.completion.value) else reply.after
  }

  /** The guard of the loop. */
  predicate Busy(c: Card, m: Memory)
    requires CardRings(c)
  {
    RingsOk(c, GENERAL);
    Room(m, Completion(c)) && !Empty(m, Request(c, GENERAL))
  }

  /** The completions of v followed by at most one more, and one general request fewer. */
  predicate Served(v: Queues, w: Queues) {
    && |v.requests| == |w.requests| > 0 && v.requests[0] != [] && w.requests == v.requests[0 := v.requests[0][1..]]
    && v.completions <= w.completions && |w.completions| <= |v.completions| + 1
  }

  lemma ServeOneServes(c: Card, m: Memory, handle: Handler)
    requires AllGood(c, m) && c.queues > 0 && Polite(c, handle) && CardRings(c) && Busy(c, m)
    ensures AllGood(c, ServeOne(c, m, handle)) && Served(View(c, m), View(c, ServeOne(c, m, handle)))
  {
    hide AllGood, View, Load, Unload, Oldest, Empty, Room, SameRing, Request, Completion, RingOk, CardRings;
    GoodParts(c, m, GENERAL);
    var m1 := Unload(m, Request(c, GENERAL));
    var e := Oldest(m, Request(c, GENERAL));
    TakeRefines(c, m, GENERAL);
    var reply := handle(m1, e);
    assert Keeps(c, m1, reply);
    ElsewhereRefines(c, m1, reply.after);
    RoomKept(c, m, m1);
    RoomKept(c, m1, reply.after);
    if reply.completion.Some? {
      GoodParts(c, reply.after, GENERAL);
      CompleteRefines(c, reply.after, reply.completion.value);
    }
  }

  /** Room is a matter of how many completions are queued. */
  lemma RoomKept(c: Card, m: Memory, t: Memory)
    requires AllGood(c, m) && AllGood(c, t) && View(c, t).completions == View(c, m).completions && CardRings(c)
    requires RingOk(Completion(c))
    ensures Room(t, Completion(c)) == Room(m, Completion(c))
  {
    hide Load, Request, Completion, CardRings, Contents, Room, Good;
    ViewParts(c, m, 0);
    ViewParts(c, t, 0);
    var entry := seq(c.esize, i => 0);
    LoadAppends(m, Completion(c), entry);
    LoadAppends(t, Completion(c), entry);
  }

  /** The loop. Every round takes a request, so it ends. */
  ghost function Serve(c: Card, m: Memory, handle: Handler): Memory
    requires AllGood(c, m) && c.queues > 0 && Polite(c, handle) && CardRings(c)
    decreases |View(c, m).requests[0]|
  {
    if Busy(c, m) then ServeOneServes(c, m, handle); Serve(c, ServeOne(c, m, handle), handle) else m
  }

  /**
   The loop ends with the completion queue full or the general request queue empty. It takes
   requests from the front only, leaves other queues alone, and only appends completions:
   none that was unread is overwritten.
   */
  lemma {:induction false} ServeSafe(c: Card, m: Memory, handle: Handler)
    requires AllGood(c, m) && c.queues > 0 && Polite(c, handle) && CardRings(c)
    ensures var t := Serve(c, m, handle);
            && AllGood(c, t) && !Busy(c, t)
            && var v, w := View(c, m), View(c, t);
            var k := |v.requests[0]| - |w.requests[0]|;
            && 0 <= k <= |v.requests[0]| && w.requests == v.requests[0 := v.requests[0][k..]]
            && v.completions <= w.completions && |w.completions| - |v.completions| <= k
    decreases |View(c, m).requests[0]|
  {
    hide AllGood, View, ServeOne, Busy, Polite, CardRings;
    if Busy(c, m) {
      ServeOneServes(c, m, handle);
      ServeSafe(c, ServeOne(c, m, handle), handle);
    }
  }
}
