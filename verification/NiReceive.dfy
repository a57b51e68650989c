/**
 The receive side of the NI network card: receive buffers posted by the host are taken from
 two request queues into small job caches, and consumed one per packet.
 */
module NiReceive {

  import Ram

  const CACHE_LEN: nat := 4
  const LIMIT: nat := 0x1_0000_0000
  const SMALL_MAX: nat := 106

  /** A receive buffer. */
  datatype Job = Job(addr: Ram.Word, slot: Ram.Byte)

  /** A circular buffer of jobs. */
  datatype Cache = Cache(req: seq<Job>, wp: nat, rp: nat)

  predicate CacheOk(c: Cache) { |c.req| == CACHE_LEN && c.wp < CACHE_LEN && c.rp < CACHE_LEN }

  predicate HasSpace(c: Cache) { Slot(c.wp, 1) != c.rp }
  predicate HasJob(c: Cache) { c.wp != c.rp }

  function Span(rp: nat, wp: nat): nat
    requires rp < CACHE_LEN
  {
    (wp + CACHE_LEN - rp) % CACHE_LEN
  }

  function Slot(rp: nat, i: nat): (k: nat)
    ensures k < CACHE_LEN
  {
    (rp + i) % CACHE_LEN
  }

  function Count(c: Cache): nat
    requires CacheOk(c)
  {
    Span(c.rp, c.wp)
  }

  /** The cached jobs, oldest first. */
  function Jobs(c: Cache): (s: seq<Job>)
    requires CacheOk(c)
    ensures |s| == Count(c)
  {
    seq(Count(c), i requires 0 <= i < Count(c) => c.req[Slot(c.rp, i)])
  }

  function Insert(c: Cache, j: Job): Cache
    requires CacheOk(c)
  {
    Cache(c.req[c.wp := j], Slot(c.wp, 1), c.rp)
  }

  function Drain(c: Cache): Cache
    requires CacheOk(c)
  {
    c.(rp := Slot(c.rp, 1))
  }

  /** A cache of four slots holds at most three jobs. */
  lemma CacheCounts(c: Cache)
    requires CacheOk(c)
    ensures Count(c) <= 3 && (HasSpace(c) <==> Count(c) < 3) && (HasJob(c) <==> Jobs(c) != [])
  {
  }

  lemma SpanCases(rp: nat, wp: nat)
    requires rp < CACHE_LEN && wp < CACHE_LEN
    ensures Span(rp, wp) == if rp <= wp then wp - rp else wp + CACHE_LEN - rp
  {
  }

  lemma SlotCases(rp: nat, i: nat)
    requires rp < CACHE_LEN && i <= CACHE_LEN
    ensures Slot(rp, i) == if rp + i < CACHE_LEN then rp + i else rp + i - CACHE_LEN
  {
  }

  lemma SpanFacts(rp: nat, wp: nat)
    requires rp < CACHE_LEN && wp < CACHE_LEN
    ensures Slot(wp, 1) != rp ==> Span(rp, Slot(wp, 1)) == Span(rp, wp) + 1 && Slot(rp, Span(rp, wp)) == wp
    ensures wp != rp ==> Span(Slot(rp, 1), wp) == Span(rp, wp) - 1 && Slot(rp, 0) == rp
  {
    hide Slot, Span;
    SlotCases(wp, 1);
    SlotCases(rp, 1);
    SlotCases(rp, 0);
    SpanCases(rp, wp);
    SlotCases(rp, Span(rp, wp));
    SpanCases(rp, Slot(wp, 1));
    SpanCases(Slot(rp, 1), wp);
  }

  lemma SlotFacts(rp: nat, wp: nat, i: nat)
    requires rp < CACHE_LEN && wp < CACHE_LEN
    ensures i < Span(rp, wp) ==> Slot(rp, i) != wp
    ensures Slot(Slot(rp, 1), i) == Slot(rp, i + 1)
  {
  }

  lemma InsertFifo(c: Cache, j: Job)
    requires CacheOk(c) && HasSpace(c)
    ensures CacheOk(Insert(c, j)) && Count(Insert(c, j)) == Count(c) + 1 && Jobs(Insert(c, j)) == Jobs(c) + [j]
  {
    hide Slot, Span;
    SpanFacts(c.rp, c.wp);
    forall i: nat | i < Count(c)
      ensures Slot(c.rp, i) != c.wp
    {
      SlotFacts(c.rp, c.wp, i);
    }
  }

  lemma DrainFifo(c: Cache)
    requires CacheOk(c) && HasJob(c)
    ensures CacheOk(Drain(c)) && Count(Drain(c)) == Count(c) - 1 && Jobs(c) == [c.req[c.rp]] + Jobs(Drain(c))
  {
    hide Slot, Span;
    SpanFacts(c.rp, c.wp);
    forall i: nat
      ensures Slot(Slot(c.rp, 1), i) == Slot(c.rp, i + 1)
    {
      SlotFacts(c.rp, c.wp, i);
    }
  }

  // ------------------------------------------------------------ the card and the host

  /** The card, the requests still queued, and a record of what was posted and completed, each
   for small and large packets. */
  datatype World = World(
    caches: seq<Cache>, taken: nat, rx: nat, enabled: bool,
    pending: seq<seq<Job>>, posted: seq<seq<Job>>, completed: seq<seq<Job>>)

  predicate Shaped(w: World) {
    && |w.caches| == 2 && |w.pending| == 2 && |w.posted| == 2 && |w.completed| == 2
    && CacheOk(w.caches[0]) && CacheOk(w.caches[1])
  }

  /** Jobs of one class, from completed to still queued, are the jobs posted, in order. */
  predicate InOrder(w: World, k: nat)
    requires Shaped(w) && k < 2
  {
    w.posted[k] == w.completed[k] + Jobs(w.caches[k]) + w.pending[k]
  }

  /** What the counters of a card that has been on long enough to wrap still say. */
  predicate Balanced(w: World)
    requires Shaped(w)
  {
    w.taken == (w.rx + Count(w.caches[0]) + Count(w.caches[1])) % LIMIT
  }

  predicate Conserved(w: World) { Shaped(w) && InOrder(w, 0) && InOrder(w, 1) && Balanced(w) }

  function Post(w: World, k: nat, j: Job): World
    requires Shaped(w) && k < 2
  {
    w.(pending := w.pending[k := w.pending[k] + [j]], posted := w.posted[k := w.posted[k] + [j]])
  }

  /** Move one request into its cache. */
  function TakeOne(w: World, k: nat): World
    requires Shaped(w) && k < 2 && w.pending[k] != []
  {
    w.(caches := w.caches[k := Insert(w.caches[k], w.pending[k][0])],
       pending := w.pending[k := w.pending[k][1..]],
       taken := (w.taken + 1) % LIMIT)
  }

  lemma TakeOneConserves(w: World, k: nat)
    requires Conserved(w) && k < 2 && w.pending[k] != [] && HasSpace(w.caches[k])
    ensures Conserved(TakeOne(w, k))
  {
    hide Jobs, Count, HasSpace, Insert, CacheOk;
    var j := w.pending[k][0];
    InsertFifo(w.caches[k], j);
    var t := TakeOne(w, k);
    assert w.pending[k] == [j] + t.pending[k];
  }

  /** The inner polling loop: fill the cache while it has space and the queue has requests. */
  function Fill(w: World, k: nat): (t: World)
    requires Conserved(w) && k < 2
    ensures Conserved(t)
    decreases |w.pending[k]|
  {
    if HasSpace(w.caches[k]) && w.pending[k] != [] then
      TakeOneConserves(w, k);
      Fill(TakeOne(w, k), k)
    else w
  }

  /** Poll the receive queues; queue 0 of the card is for general requests. */
  function Poll(w: World, queues: nat): (t: World)
    requires Conserved(w) && queues <= 3
    ensures Conserved(t)
  {
    var w1 := if queues > 1 then Fill(w, 0) else w;
    if queues > 2 then Fill(w1, 1) else w1
  }

  predicate BuffersAvail(w: World)
    requires Shaped(w)
  {
    HasJob(w.caches[0]) && HasJob(w.caches[1])
  }

  function ClassOf(len: nat): nat { if len > SMALL_MAX then 1 else 0 }

  /** A packet takes the oldest cached buffer of its class. */
  function Process(w: World, len: nat): World
    requires Shaped(w)
  {
    var k := ClassOf(len);
    var c := w.caches[k];
    w.(caches := w.caches[k := Drain(c)], rx := (w.rx + 1) % LIMIT,
       completed := w.completed[k := w.completed[k] + [c.req[c.rp]]])
  }

  /** The buffer used is one that was cached: an empty cache is never drained. */
  lemma ProcessConserves(w: World, len: nat)
    requires Conserved(w) && BuffersAvail(w)
    ensures Conserved(Process(w, len))
    ensures Jobs(w.caches[ClassOf(len)]) != []
    ensures Process(w, len).completed[ClassOf(len)] == w.completed[ClassOf(len)] + [Jobs(w.caches[ClassOf(len)])[0]]
  {
    hide Jobs, Count, HasJob, Drain, Slot;
    var k := ClassOf(len);
    CacheCounts(w.caches[k]);
    DrainFifo(w.caches[k]);
  }

  /** The receive loop over the packets waiting on the wire. */
  function Receive(w: World, packets: seq<nat>): (t: World)
    requires Conserved(w)
    ensures Conserved(t)
    decreases |packets|
  {
    if w.enabled && BuffersAvail(w) && packets != [] then
      ProcessConserves(w, packets[0]);
      Receive(Process(w, packets[0]), packets[1..])
    else w
  }

  /** Turning the card on clears statistics and caches; jobs still queued are all there is. */
  function Enable(w: World): World
    requires Shaped(w)
  {
    var none := Cache(seq(CACHE_LEN, _ => Job(0, 0)), 0, 0);
    w.(caches := [none, none], taken := 0, rx := 0, enabled := true, posted := w.pending, completed := [[], []])
  }

  lemma EnableConserves(w: World)
    requires Shaped(w)
    ensures Conserved(Enable(w))
  {
  }

  // ------------------------------------------------------------ runs

  datatype Step =
    | HostPosts(k: nat, job: Job)
    | Polls(queues: nat)
    | Packets(lengths: seq<nat>)
    | TurnsOn
    | TurnsOff

  predicate StepOk(step: Step) { (step.HostPosts? ==> step.k < 2) && (step.Polls? ==> step.queues <= 3) }

  function Take(w: World, step: Step): (t: World)
    requires Conserved(w) && StepOk(step)
    ensures Conserved(t)
  {
    match step
    case HostPosts(k, job) => Post(w, k, job)
    case Polls(queues) => Poll(w, queues)
    case Packets(lengths) => Receive(w, lengths)
    case TurnsOn => EnableConserves(w); Enable(w)
    case TurnsOff => w.(enabled := false)
  }

  function Run(w: World, steps: seq<Step>): (t: World)
    requires Conserved(w) && forall i :: 0 <= i < |steps| ==> StepOk(steps[i])
    ensures Conserved(t)
    decreases |steps|
  {
    if steps == [] then w else Run(Take(w, steps[0]), steps[1..])
  }

  /**
   Over every run from the moment the card is turned on: requests taken are packets received
   plus jobs cached, each cache holds at most three, and the buffers of each size class have
   been completed in the order they were posted, those not yet completed following in order.
   Completed means used for a packet; NiDeliver.DeliveredExactly says when the host hears of it.
   */
  lemma ReceiveConserves(w: World, steps: seq<Step>)
    requires Shaped(w) && forall i :: 0 <= i < |steps| ==> StepOk(steps[i])
    ensures Conserved(Enable(w))
    ensures var t := Run(Enable(w), steps);
            && t.taken == (t.rx + Count(t.caches[0]) + Count(t.caches[1])) % LIMIT
            && Count(t.caches[0]) <= 3 && Count(t.caches[1]) <= 3
            && t.completed[0] <= t.posted[0] && t.completed[1] <= t.posted[1]
            && t.posted[0] == t.completed[0] + Jobs(t.caches[0]) + t.pending[0]
            && t.posted[1] == t.completed[1] + Jobs(t.caches[1]) + t.pending[1]
  {
    hide Conserved, Jobs, Count, Run, Enable, CacheOk;
    EnableConserves(w);
    ConservedFacts(Run(Enable(w), steps));
  }

  lemma ConservedFacts(t: World)
    requires Conserved(t)
    ensures t.taken == (t.rx + Count(t.caches[0]) + Count(t.caches[1])) % LIMIT
    ensures Count(t.caches[0]) <= 3 && Count(t.caches[1]) <= 3
    ensures t.completed[0] <= t.posted[0] && t.completed[1] <= t.posted[1]
    ensures t.posted[0] == t.completed[0] + Jobs(t.caches[0]) + t.pending[0]
    ensures t.posted[1] == t.completed[1] + Jobs(t.caches[1]) + t.pending[1]
  {
    hide Jobs, Count, CacheOk;
    CacheCounts(t.caches[0]);
    CacheCounts(t.caches[1]);
    Prefix(t.completed[0], Jobs(t.caches[0]), t.pending[0]);
    Prefix(t.completed[1], Jobs(t.caches[1]), t.pending[1]);
  }

  lemma Prefix(a: seq<Job>, b: seq<Job>, c: seq<Job>)
    ensures a <= a + b + c
  {
  }
}
