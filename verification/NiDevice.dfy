/**
 The NI card's job caches and receive loops, updated in place.
 */
module NiDevice {

  import opened NiReceive

  class Ni {
    /** Both job caches, four slots each, one after the other. */
    const req: array<Job>
    const wp: array<nat>
    const rp: array<nat>
    var rqTaken: nat
    var rxPkt: nat
    var enabled: bool
    /** The receive request queues of the host, and the jobs completed, by class. */
    var pending: seq<seq<Job>>
    var completed: seq<seq<Job>>
    ghost var posted: seq<seq<Job>>

    constructor ()
      ensures Ok() && fresh(req) && fresh(wp) && fresh(rp)
    {
      req := new Job[8](_ => Job(0, 0));
      wp := new nat[2](_ => 0);
      rp := new nat[2](_ => 0);
      rqTaken, rxPkt, enabled := 0, 0, false;
      pending, completed, posted := [[], []], [[], []], [[], []];
    }

    ghost predicate Ok()
      reads this, req, wp, rp
    {
      && req.Length == 8 && wp.Length == 2 && rp.Length == 2 && wp != rp
      && wp[0] < CACHE_LEN && wp[1] < CACHE_LEN && rp[0] < CACHE_LEN && rp[1] < CACHE_LEN
      && |pending| == 2 && |completed| == 2 && |posted| == 2
    }

    ghost function CacheAt(k: nat): (c: Cache)
      requires Ok() && k < 2
      reads this, req, wp, rp
      ensures CacheOk(c)
    {
      Cache(req[k * 4..k * 4 + 4], wp[k], rp[k])
    }

    ghost function Abs(): (w: World)
      requires Ok()
      reads this, req, wp, rp
      ensures Shaped(w)
    {
      World([CacheAt(0), CacheAt(1)], rqTaken, rxPkt, enabled, pending, posted, completed)
    }

    method NiEnable()
      requires Ok()
      modifies this, req, wp, rp
      ensures Ok() && Abs() == Enable(old(Abs()))
    {
      rqTaken, rxPkt := 0, 0;
      forall i | 0 <= i < 8 {
        req[i] := Job(0, 0);
      }
      wp[0], wp[1], rp[0], rp[1] := 0, 0, 0, 0;
      enabled := true;
      completed, posted := [[], []], pending;
      assert CacheAt(0).req == seq(CACHE_LEN, _ => Job(0, 0)) && CacheAt(1).req == seq(CACHE_LEN, _ => Job(0, 0));
    }

    /** Cache the oldest request of class k. */
    method CacheRequest(k: nat)
      requires Ok() && k < 2 && pending[k] != []
      modifies this`rqTaken, this`pending, req, wp
      ensures Ok() && Abs() == TakeOne(old(Abs()), k)
    {
      hide Slot;
      var job := pending[k][0];
      pending := pending[k := pending[k][1..]];
      var w := wp[k];
      req[k * 4 + w] := job;
      wp[k] := Slot(w, 1);
      rqTaken := (rqTaken + 1) % LIMIT;
      assert CacheAt(k) == Insert(old(CacheAt(k)), job);
      assert CacheAt(1 - k) == old(CacheAt(1 - k));
    }

    /** Poll the receive request queues. */
    method RqSvc(queues: nat)
      requires Ok() && Conserved(Abs()) && queues <= 3
      modifies this`rqTaken, this`pending, req, wp
      ensures Ok() && Abs() == Poll(old(Abs()), queues)
    {
      hide Conserved, TakeOne;
      if queues > 1 {
        FillCache(0);
      }
      if queues > 2 {
        FillCache(1);
      }
    }

    method FillCache(k: nat)
      requires Ok() && Conserved(Abs()) && k < 2
      modifies this`rqTaken, this`pending, req, wp
      ensures Ok() && Abs() == Fill(old(Abs()), k)
    {
      hide Slot, TakeOne, InOrder, Balanced;
      while Slot(wp[k], 1) != rp[k] && pending[k] != []
        invariant Ok() && Conserved(Abs()) && Fill(Abs(), k) == Fill(old(Abs()), k)
        decreases |pending[k]|
      {
        TakeOneConserves(Abs(), k);
        ShorterPending(Abs(), k);
        CacheRequest(k);
      }
    }

    /** Complete the oldest cached buffer of the packet's class. */
    method ProcessPacket(len: nat) returns (job: Job)
      requires Ok() && BuffersAvail(Abs())
      modifies this`rxPkt, this`completed, rp
      ensures Ok() && Abs() == Process(old(Abs()), len)
      ensures Jobs(old(Abs()).caches[ClassOf(len)]) != [] && job == Jobs(old(Abs()).caches[ClassOf(len)])[0]
    {
      hide Slot, Span;
      var k := ClassOf(len);
      CacheCounts(CacheAt(k));
      DrainFifo(CacheAt(k));
      var r := rp[k];
      job := req[k * 4 + r];
      rp[k] := Slot(r, 1);
      rxPkt := (rxPkt + 1) % LIMIT;
      completed := completed[k := completed[k] + [job]];
      assert CacheAt(k) == Drain(old(CacheAt(k)));
      assert CacheAt(1 - k) == old(CacheAt(1 - k));
    }

    /** Read packets while both classes have a buffer ready. */
    method RcvSvc(packets: seq<nat>)
      requires Ok() && Conserved(Abs())
      modifies this`rxPkt, this`completed, rp
      ensures Ok() && Abs() == Receive(old(Abs()), packets)
    {
      hide Slot, Process, InOrder, Balanced, Jobs;
      var i := 0;
      while enabled && wp[0] != rp[0] && wp[1] != rp[1] && i < |packets|
        invariant Ok() && i <= |packets| && Conserved(Abs())
        invariant Receive(Abs(), packets[i..]) == Receive(old(Abs()), packets)
        decreases |packets| - i
      {
        ProcessConserves(Abs(), packets[i]);
        var _ := ProcessPacket(packets[i]);
        assert packets[i..][1..] == packets[i + 1..];
        i := i + 1;
      }
    }
  }

  lemma ShorterPending(w: World, k: nat)
    requires Shaped(w) && k < 2 && w.pending[k] != []
    ensures |TakeOne(w, k).pending[k]| < |w.pending[k]|
  {
  }
}
