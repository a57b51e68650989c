/**
 The queues of one Common I/O card: several request rings and a completion ring shared with
 the host. Over every run they behave as separate FIFO queues.
 */
module CioQueues {

  import opened Ram
  import opened CioRing
  import Powers

  /** What sysgen told the card about its queues. */
  datatype Card = Card(rqp: int, cqp: int, rqs: nat, cqs: nat, queues: nat, esize: nat)

  /** Request queues follow an express entry, one after the other. */
  function Request(c: Card, q: nat): (r: Ring)
    ensures r.esize == c.esize && r.n == c.rqs
  {
    Ring(c.rqp + c.esize + q * Stride(c), c.esize, c.rqs)
  }

  function Stride(c: Card): nat { 4 + c.esize * c.rqs }

  /** The completion queue follows an express entry too. */
  function Completion(c: Card): (r: Ring)
    ensures r.esize == c.esize && r.n == c.cqs
  {
    Ring(c.cqp + c.esize, c.esize, c.cqs)
  }

  function End(r: Ring): int { Top(r) + Size(r) }

  /** Queue sizes are positive and fit 16-bit pointers; the completion ring is clear of the
   request rings. */
  predicate CardOk(c: Card) {
    && CardRings(c)
    && (End(Completion(c)) <= c.rqp + c.esize || c.rqp + c.esize + c.queues * Stride(c) <= Completion(c).base)
  }

  predicate CardRings(c: Card) { RingOk(Ring(0, c.esize, c.rqs)) && RingOk(Completion(c)) }

  lemma RingsOk(c: Card, q: nat)
    requires CardRings(c)
    ensures RingOk(Request(c, q)) && RingOk(Completion(c))
  {
    hide Stride;
  }

  // ------------------------------------------------------------ layout

  /** Different request queues share no byte. */
  lemma RequestsApart(c: Card, p: nat, q: nat)
    requires p < q
    ensures End(Request(c, p)) <= Request(c, q).base
  {
    Powers.MulLe(p + 1, q, Stride(c));
  }

  lemma CompletionApart(c: Card, q: nat)
    requires CardOk(c) && q < c.queues
    ensures End(Completion(c)) <= Request(c, q).base || End(Request(c, q)) <= Completion(c).base
  {
    Powers.MulLe(0, q, Stride(c));
    Powers.MulLe(q + 1, c.queues, Stride(c));
  }

  /** Memory is the same throughout a ring. */
  ghost predicate SameRing(m: Memory, t: Memory, r: Ring) {
    forall x :: r.base <= x < End(r) ==> Get(t, x) == Get(m, x)
  }

  lemma SameBytes(m: Memory, t: Memory, a: int, n: nat)
    requires forall x :: a <= x < a + n ==> Get(t, x) == Get(m, x)
    ensures Bytes(t, a, n) == Bytes(m, a, n)
  {
  }

  lemma SameRingContents(m: Memory, t: Memory, r: Ring)
    requires Good(m, r) && SameRing(m, t, r)
    ensures Good(t, r) && Contents(t, r) == Contents(m, r) && Room(t, r) == Room(m, r) && Empty(t, r) == Empty(m, r)
  {
    hide Get, Bytes, HalfOf, Pointer, Index, Count, Slot, Advance, ItemAddr;
    SizeNonnegative(r);
    SameBytes(m, t, r.base, 2);
    SameBytes(m, t, r.base + 2, 2);
    PointerIndex(r, Lp(m, r));
    PointerIndex(r, Ulp(m, r));
    var u := Index(r, Ulp(m, r));
    forall i | 0 <= i < Held(m, r)
      ensures Contents(t, r)[i] == Contents(m, r)[i]
    {
      SlotRange(u, i, r.n);
      ItemPlace(r, Slot(u, i, r.n));
      SameBytes(m, t, ItemAddr(r, Slot(u, i, r.n)), r.esize);
    }
    assert Contents(t, r) == Contents(m, r);
  }

  lemma SizeNonnegative(r: Ring)
    ensures Size(r) >= 0
  {
  }

  lemma SlotRange(u: int, i: int, n: int)
    requires 0 <= u < n && 0 <= i < n
    ensures 0 <= Slot(u, i, n) < n
  {
  }

  /** Loading or unloading one ring does not touch another that lies elsewhere. */
  lemma OtherRing(m: Memory, r: Ring, entry: seq<Byte>, o: Ring)
    requires Good(m, r) && |entry| == r.esize && (End(o) <= r.base || End(r) <= o.base)
    ensures SameRing(m, Load(m, r, entry), o) && SameRing(m, Unload(m, r), o)
  {
    hide Get, Put, HalfBytes, ReadHalf, Advance, Pointer, Index;
    LpInside(m, r);
    var t := Put(m, Top(r) + Lp(m, r), entry);
    forall x | o.base <= x < End(o)
      ensures Get(Load(m, r, entry), x) == Get(m, x) && Get(Unload(m, r), x) == Get(m, x)
    {
      PutGet(m, Top(r) + Lp(m, r), entry, x);
      PutGet(t, r.base, HalfBytes(Advance(r, Lp(m, r))), x);
      PutGet(m, r.base + 2, HalfBytes(Advance(r, Ulp(m, r))), x);
    }
  }

  // ------------------------------------------------------------ the FIFO view

  type Entry = seq<Byte>

  datatype Queues = Queues(requests: seq<seq<Entry>>, completions: seq<Entry>)

  ghost predicate AllGood(c: Card, m: Memory) {
    CardOk(c) && Good(m, Completion(c)) && forall q :: 0 <= q < c.queues ==> Good(m, Request(c, q))
  }

  ghost function View(c: Card, m: Memory): (v: Queues)
    requires AllGood(c, m)
    ensures |v.requests| == c.queues
  {
    Queues(seq(c.queues, q requires 0 <= q < c.queues => Contents(m, Request(c, q))), Contents(m, Completion(c)))
  }

  /** Host and card take turns; Elsewhere is any change of memory outside the rings. */
  datatype Step =
    | Post(q: nat, entry: Entry)
    | Take(q: nat)
    | Complete(entry: Entry)
    | Reap
    | Elsewhere(after: Memory)

  datatype Seen = Nothing | Got(entry: Entry)
  datatype Moved = Moved(m: Memory, seen: Seen)
  datatype Viewed = Viewed(v: Queues, seen: Seen)

  /** The step on memory, as the queue routines do it. */
  function Move(c: Card, m: Memory, step: Step): Moved
    requires CardRings(c)
  {
    RingsOk(c, if step.Post? || step.Take? then step.q else 0);
    match step
    case Post(q, entry) => Moved(Load(m, Request(c, q), entry), Nothing)
    case Take(q) =>
      if Empty(m, Request(c, q)) then Moved(m, Nothing)
      else Moved(Unload(m, Request(c, q)), Got(Oldest(m, Request(c, q))))
    case Complete(entry) => Moved(Load(m, Completion(c), entry), Nothing)
    case Reap =>
      if Empty(m, Completion(c)) then Moved(m, Nothing)
      else Moved(Unload(m, Completion(c)), Got(Oldest(m, Completion(c))))
    case Elsewhere(t) => Moved(t, Nothing)
  }

  /** The step on queues. */
  function Fifo(v: Queues, step: Step): Viewed {
    match step
    case Post(q, entry) =>
      if q < |v.requests| then Viewed(v.(requests := v.requests[q := v.requests[q] + [entry]]), Nothing)
      else Viewed(v, Nothing)
    case Take(q) =>
      if q < |v.requests| && v.requests[q] != [] then
        Viewed(v.(requests := v.requests[q := v.requests[q][1..]]), Got(v.requests[q][0]))
      else Viewed(v, Nothing)
    case Complete(entry) => Viewed(v.(completions := v.completions + [entry]), Nothing)
    case Reap =>
      if v.completions != [] then Viewed(v.(completions := v.completions[1..]), Got(v.completions[0]))
      else Viewed(v, Nothing)
    case Elsewhere(_) => Viewed(v, Nothing)
  }

  /** The producer looks for room first, and names an existing queue; entries have full size. */
  ghost predicate Allowed(c: Card, m: Memory, step: Step)
    requires CardOk(c)
  {
    RingsOk(c, if step.Post? then step.q else 0);
    match step
    case Post(q, entry) => q < c.queues && |entry| == c.esize && Room(m, Request(c, q))
    case Take(q) => q < c.queues
    case Complete(entry) => |entry| == c.esize && Room(m, Completion(c))
    case Reap => true
    case Elsewhere(t) =>
      SameRing(m, t, Completion(c)) && forall q :: 0 <= q < c.queues ==> SameRing(m, t, Request(c, q))
  }

  /** What a change confined to request ring q does to the view. */
  lemma RequestChanged(c: Card, m: Memory, t: Memory, q: nat)
    requires AllGood(c, m) && q < c.queues && Good(t, Request(c, q)) && SameRing(m, t, Completion(c))
    requires forall p :: 0 <= p < c.queues && p != q ==> SameRing(m, t, Request(c, p))
    ensures AllGood(c, t)
    ensures View(c, t) == View(c, m).(requests := View(c, m).requests[q := Contents(t, Request(c, q))])
  {
    hide Good, Contents, SameRing, Completion, Request, CardOk, Room;
    SameRingContents(m, t, Completion(c));
    forall p | 0 <= p < c.queues && p != q
      ensures Good(t, Request(c, p)) && Contents(t, Request(c, p)) == Contents(m, Request(c, p))
    {
      SameRingContents(m, t, Request(c, p));
    }
  }

  lemma CompletionChanged(c: Card, m: Memory, t: Memory)
    requires AllGood(c, m) && Good(t, Completion(c))
    requires forall p :: 0 <= p < c.queues ==> SameRing(m, t, Request(c, p))
    ensures AllGood(c, t) && View(c, t) == View(c, m).(completions := Contents(t, Completion(c)))
  {
    hide Good, Contents, SameRing, Completion, Request, CardOk, Room;
    forall p | 0 <= p < c.queues
      ensures Good(t, Request(c, p)) && Contents(t, Request(c, p)) == Contents(m, Request(c, p))
    {
      SameRingContents(m, t, Request(c, p));
    }
  }

  lemma RequestElsewhere(c: Card, m: Memory, q: nat, entry: Entry, p: nat)
    requires AllGood(c, m) && q < c.queues && p < c.queues && p != q && |entry| == c.esize
    ensures SameRing(m, Load(m, Request(c, q), entry), Request(c, p))
    ensures SameRing(m, Unload(m, Request(c, q)), Request(c, p))
  {
    hide Good, SameRing, CardOk, End;
    if p < q {
      RequestsApart(c, p, q);
    } else {
      RequestsApart(c, q, p);
    }
    OtherRing(m, Request(c, q), entry, Request(c, p));
  }

  lemma RingsElsewhere(c: Card, m: Memory, q: nat, entry: Entry)
    requires AllGood(c, m) && q < c.queues && |entry| == c.esize
    ensures SameRing(m, Load(m, Request(c, q), entry), Completion(c))
    ensures SameRing(m, Unload(m, Request(c, q)), Completion(c))
    ensures SameRing(m, Load(m, Completion(c), entry), Request(c, q))
    ensures SameRing(m, Unload(m, Completion(c)), Request(c, q))
  {
    hide Good, SameRing, End;
    CompletionApart(c, q);
    OtherRing(m, Request(c, q), entry, Completion(c));
    OtherRing(m, Completion(c), entry, Request(c, q));
  }

  lemma GoodParts(c: Card, m: Memory, q: nat)
    requires AllGood(c, m)
    ensures CardOk(c) && Good(m, Completion(c)) && RingOk(Completion(c)) && RingOk(Request(c, q))
    ensures q < c.queues ==> Good(m, Request(c, q))
  {
    hide Request, Completion, RingOk, Pointer;
    RingsOk(c, q);
  }

  lemma ViewParts(c: Card, m: Memory, q: nat)
    requires AllGood(c, m)
    ensures Good(m, Completion(c)) && View(c, m).completions == Contents(m, Completion(c))
    ensures q < c.queues ==> Good(m, Request(c, q)) && View(c, m).requests[q] == Contents(m, Request(c, q))
  {
    hide Request, Completion, Good, Contents;
  }

  lemma PostRefines(c: Card, m: Memory, q: nat, entry: Entry)
    requires AllGood(c, m) && q < c.queues && |entry| == c.esize && RingOk(Request(c, q)) && Room(m, Request(c, q))
    ensures var t, v := Load(m, Request(c, q), entry), View(c, m);
            AllGood(c, t) && View(c, t) == v.(requests := v.requests[q := v.requests[q] + [entry]])
  {
    hide AllGood, View, Good, Contents, SameRing, Request, Completion, CardOk, RingOk, Room, Load, Unload;
    GoodParts(c, m, q);
    ViewParts(c, m, q);
    LoadAppends(m, Request(c, q), entry);
    RingsElsewhere(c, m, q, entry);
    forall p | 0 <= p < c.queues && p != q
      ensures SameRing(m, Load(m, Request(c, q), entry), Request(c, p))
    {
      RequestElsewhere(c, m, q, entry, p);
    }
    RequestChanged(c, m, Load(m, Request(c, q), entry), q);
  }

  lemma TakeRefines(c: Card, m: Memory, q: nat)
    requires AllGood(c, m) && q < c.queues && RingOk(Request(c, q))
    ensures var s, r := View(c, m).requests[q], Request(c, q);
            && (Empty(m, r) <==> s == [])
            && (s != [] ==> Oldest(m, r) == s[0] && AllGood(c, Unload(m, r)))
            && (s != [] ==> View(c, Unload(m, r)) == View(c, m).(requests := View(c, m).requests[q := s[1..]]))
  {
    hide AllGood, View, Good, Contents, SameRing, Request, Completion, CardOk, RingOk, Load, Unload, Empty, Oldest;
    var r := Request(c, q);
    GoodParts(c, m, q);
    ViewParts(c, m, q);
    UnloadTakes(m, r);
    var entry := seq(c.esize, i => 0);
    RingsElsewhere(c, m, q, entry);
    forall p | 0 <= p < c.queues && p != q
      ensures SameRing(m, Unload(m, r), Request(c, p))
    {
      RequestElsewhere(c, m, q, entry, p);
    }
    RequestChanged(c, m, Unload(m, r), q);
  }

  lemma CompleteRefines(c: Card, m: Memory, entry: Entry)
    requires AllGood(c, m) && |entry| == c.esize && RingOk(Completion(c)) && Room(m, Completion(c))
    ensures var t := Load(m, Completion(c), entry);
            AllGood(c, t) && View(c, t) == View(c, m).(completions := View(c, m).completions + [entry])
  {
    hide AllGood, View, Good, Contents, SameRing, Request, Completion, CardOk, RingOk, Room, Load, Unload;
    GoodParts(c, m, 0);
    ViewParts(c, m, 0);
    LoadAppends(m, Completion(c), entry);
    forall p | 0 <= p < c.queues
      ensures SameRing(m, Load(m, Completion(c), entry), Request(c, p))
    {
      RingsElsewhere(c, m, p, entry);
    }
    CompletionChanged(c, m, Load(m, Completion(c), entry));
  }

  lemma ReapRefines(c: Card, m: Memory)
    requires AllGood(c, m) && RingOk(Completion(c))
    ensures var s, r := View(c, m).completions, Completion(c);
            && (Empty(m, r) <==> s == [])
            && (s != [] ==> Oldest(m, r) == s[0] && AllGood(c, Unload(m, r)))
            && (s != [] ==> View(c, Unload(m, r)) == View(c, m).(completions := s[1..]))
  {
    hide AllGood, View, Good, Contents, SameRing, Request, Completion, CardOk, RingOk, Load, Unload, Empty, Oldest;
    GoodParts(c, m, 0);
    ViewParts(c, m, 0);
    UnloadTakes(m, Completion(c));
    forall p | 0 <= p < c.queues
      ensures SameRing(m, Unload(m, Completion(c)), Request(c, p))
    {
      RingsElsewhere(c, m, p, seq(c.esize, i => 0));
    }
    CompletionChanged(c, m, Unload(m, Completion(c)));
  }

  lemma ElsewhereRefines(c: Card, m: Memory, t: Memory)
    requires AllGood(c, m) && SameRing(m, t, Completion(c))
    requires forall q :: 0 <= q < c.queues ==> SameRing(m, t, Request(c, q))
    ensures AllGood(c, t) && View(c, t) == View(c, m)
  {
    hide AllGood, View, Good, Contents, SameRing, Request, Completion, CardOk, RingOk, Room;
    GoodParts(c, m, 0);
    ViewParts(c, m, 0);
    SameRingContents(m, t, Completion(c));
    CompletionChanged(c, m, t);
  }

  /** Every step on memory is the step on queues, and shows the same entry. */
  lemma MoveRefines(c: Card, m: Memory, step: Step)
    requires AllGood(c, m) && Allowed(c, m, step)
    ensures AllGood(c, Move(c, m, step).m)
    ensures Fifo(View(c, m), step) == Viewed(View(c, Move(c, m, step).m), Move(c, m, step).seen)
  {
    hide AllGood, View, Load, Unload, Oldest, Empty, Room, SameRing, Request, Completion, RingOk, CardRings;
    GoodParts(c, m, if step.Post? || step.Take? then step.q else 0);
    match step
    case Post(q, entry) => PostRefines(c, m, q, entry);
    case Take(q) => TakeRefines(c, m, q);
    case Complete(entry) => CompleteRefines(c, m, entry);
    case Reap => ReapRefines(c, m);
    case Elsewhere(t) => ElsewhereRefines(c, m, t);
  }

  // ------------------------------------------------------------ runs

  datatype MovedRun = MovedRun(m: Memory, seen: seq<Seen>)
  datatype ViewedRun = ViewedRun(v: Queues, seen: seq<Seen>)

  function RunMemory(c: Card, m: Memory, steps: seq<Step>): MovedRun
    requires CardOk(c)
    decreases |steps|
  {
    if steps == [] then MovedRun(m, []) else
    var t := Move(c, m, steps[0]);
    var rest := RunMemory(c, t.m, steps[1..]);
    MovedRun(rest.m, [t.seen] + rest.seen)
  }

  function RunFifo(v: Queues, steps: seq<Step>): ViewedRun
    decreases |steps|
  {
    if steps == [] then ViewedRun(v, []) else
    var t := Fifo(v, steps[0]);
    var rest := RunFifo(t.v, steps[1..]);
    ViewedRun(rest.v, [t.seen] + rest.seen)
  }

  ghost predicate AllowedRun(c: Card, m: Memory, steps: seq<Step>)
    requires CardOk(c)
    decreases |steps|
  {
    steps == [] || (Allowed(c, m, steps[0]) && AllowedRun(c, Move(c, m, steps[0]).m, steps[1..]))
  }

  /**
   Over every run of host and card the rings in memory are FIFO queues: pointers stay
   multiples of the entry size inside their rings, and entries come out in order, unchanged.
   */
  lemma {:induction false} RunRefines(c: Card, m: Memory, steps: seq<Step>)
    requires AllGood(c, m) && AllowedRun(c, m, steps)
    ensures var t := RunMemory(c, m, steps);
            AllGood(c, t.m) && RunFifo(View(c, m), steps) == ViewedRun(View(c, t.m), t.seen)
    decreases |steps|
  {
    hide AllGood, View, Move, Fifo, Allowed;
    GoodParts(c, m, 0);
    if steps != [] {
      MoveRefines(c, m, steps[0]);
      RunRefines(c, Move(c, m, steps[0]).m, steps[1..]);
    }
  }
}
