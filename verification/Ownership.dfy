/** Who owns each packet of the fixed pool: the free list, the two queues, the radio, or the code
    that has it in hand. */
module Ownership {
  import opened Words
  import opened Clock32
  import opened PacketQueue

  datatype Pool = Pool(unused: seq<Entry>, send: seq<Entry>, rx: seq<Entry>, outbound: Option<nat>)

  // ---- the packet manager ----

  function Alloc(p: Pool): (Pool, Option<nat>)
  {
    if p.unused == [] then (p, None) else (p.(unused := p.unused[1..]), Some(p.unused[0].packet))
  }

  function Free(p: Pool, id: nat, n: nat): Pool
  {
    if |p.unused| < n then p.(unused := p.unused + [Entry(id, 0, 0)]) else p
  }

  function QueueOut(p: Pool, id: nat, pri: u8, sched: u32, n: nat): Pool
  {
    if |p.send| < n then p.(send := p.send + [Entry(id, pri, sched)]) else Free(p, id, n)
  }

  function QueueIn(p: Pool, id: nat, sched: u32, n: nat): Pool
  {
    if |p.rx| < n then p.(rx := p.rx + [Entry(id, 0, sched)]) else Free(p, id, n)
  }

  // ---- conservation ----

  /** How often packet id occurs in a queue. */
  ghost function Count(q: seq<Entry>, id: nat): nat
  {
    if q == [] then 0 else Count(q[..|q| - 1], id) + One(q[|q| - 1].packet, id)
  }

  function One(x: nat, id: nat): nat { if x == id then 1 else 0 }

  ghost function Times(hand: seq<nat>, id: nat): nat
    decreases |hand|, hand
  {
    if hand == [] then 0 else One(hand[0], id) + Times(hand[1..], id)
  }

  function AirCount(o: Option<nat>, id: nat): nat { if o.Some? then One(o.value, id) else 0 }

  ghost function Tally(p: Pool, id: nat): nat
  {
    Count(p.unused, id) + Count(p.send, id) + Count(p.rx, id) + AirCount(p.outbound, id)
  }

  function Held(p: Pool): nat { |p.unused| + |p.send| + |p.rx| + (if p.outbound.Some? then 1 else 0) }

  /** Queued priorities stay below 255, so the scan's initial bound hides nothing. */
  ghost predicate Priorities(p: Pool)
  {
    && (forall i :: 0 <= i < |p.send| ==> p.send[i].pri <= 254)
    && (forall i :: 0 <= i < |p.rx| ==> p.rx[i].pri == 0)
  }

  ghost predicate Once(p: Pool, hand: seq<nat>, id: nat, n: nat)
  {
    Tally(p, id) + Times(hand, id) == if id < n then 1 else 0
  }

  /** Free list, both queues, the frame on the air and the packets in hand are together the n
      packets of the pool, each once. */
  ghost predicate Conserved(p: Pool, hand: seq<nat>, n: nat)
  {
    && Held(p) + |hand| == n
    && (forall id: nat :: Once(p, hand, id, n))
    && Priorities(p)
  }

  lemma {:induction false} CountConcat(a: seq<Entry>, b: seq<Entry>, id: nat)
    ensures Count(a + b, id) == Count(a, id) + Count(b, id)
  {
    if b == [] {
      assert a + b == a;
    } else {
      assert (a + b)[..|a + b| - 1] == a + b[..|b| - 1];
      CountConcat(a, b[..|b| - 1], id);
    }
  }

  lemma {:induction false} CountSnoc(q: seq<Entry>, e: Entry, id: nat)
    ensures Count(q + [e], id) == Count(q, id) + One(e.packet, id)
  {
    assert (q + [e])[..|q|] == q;
  }

  lemma {:induction false} CountWithout(q: seq<Entry>, i: nat, id: nat)
    requires i < |q|
    ensures Count(q, id) == Count(Without(q, i), id) + One(q[i].packet, id)
  {
    assert q == (q[..i] + [q[i]]) + q[i + 1..];
    CountConcat(q[..i] + [q[i]], q[i + 1..], id);
    CountSnoc(q[..i], q[i], id);
    CountConcat(q[..i], q[i + 1..], id);
  }

  lemma {:induction false} TimesCons(x: nat, hand: seq<nat>, id: nat)
    ensures Times([x] + hand, id) == One(x, id) + Times(hand, id)
  {
    assert ([x] + hand)[1..] == hand;
  }

  /** While a packet is in hand no queue is full: the fallbacks of queue_outbound, queue_inbound
      and free are never taken. */
  lemma {:induction false} Room(p: Pool, hand: seq<nat>, id: nat, n: nat)
    requires Conserved(p, [id] + hand, n)
    ensures |p.unused| < n && |p.send| < n && |p.rx| < n
  {}

  lemma {:induction false} FreeKeeps(p: Pool, hand: seq<nat>, x: nat, n: nat)
    requires Conserved(p, [x] + hand, n)
    ensures Conserved(Free(p, x, n), hand, n)
  {
    forall id: nat
      ensures Once(Free(p, x, n), hand, id, n)
    {
      assert Once(p, [x] + hand, id, n);
      CountSnoc(p.unused, Entry(x, 0, 0), id);
      TimesCons(x, hand, id);
    }
  }

  lemma {:induction false} QueueOutKeeps(p: Pool, hand: seq<nat>, x: nat, pri: u8, sched: u32, n: nat)
    requires Conserved(p, [x] + hand, n) && pri <= 254
    ensures Conserved(QueueOut(p, x, pri, sched, n), hand, n)
  {
    forall id: nat
      ensures Once(QueueOut(p, x, pri, sched, n), hand, id, n)
    {
      assert Once(p, [x] + hand, id, n);
      CountSnoc(p.send, Entry(x, pri, sched), id);
      TimesCons(x, hand, id);
    }
  }

  lemma {:induction false} QueueInKeeps(p: Pool, hand: seq<nat>, x: nat, sched: u32, n: nat)
    requires Conserved(p, [x] + hand, n)
    ensures Conserved(QueueIn(p, x, sched, n), hand, n)
  {
    forall id: nat
      ensures Once(QueueIn(p, x, sched, n), hand, id, n)
    {
      assert Once(p, [x] + hand, id, n);
      CountSnoc(p.rx, Entry(x, 0, sched), id);
      TimesCons(x, hand, id);
    }
  }

  lemma {:induction false} AllocKeeps(p: Pool, hand: seq<nat>, n: nat)
    requires Conserved(p, hand, n)
    ensures var (p1, x) := Alloc(p); Conserved(p1, if x.Some? then [x.value] + hand else hand, n)
  {
    if p.unused != [] {
      assert Without(p.unused, 0) == p.unused[1..];
      forall id: nat
        ensures Once(Alloc(p).0, [p.unused[0].packet] + hand, id, n)
      {
        assert Once(p, hand, id, n);
        CountWithout(p.unused, 0, id);
        TimesCons(p.unused[0].packet, hand, id);
      }
    }
  }
}
