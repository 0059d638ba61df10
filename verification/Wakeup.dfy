/** Every source of a wake-up, folded by the dispatcher, the request correlation and the runtime. */
module Wakeup {
  import opened Words
  import opened Clock32
  import opened Deadline
  import opened PacketQueue
  import opened Ownership
  import opened PacketPool
  import opened PacketFate
  import opened Dispatcher
  import opened PendingAcks

  const NONRX_TIMEOUT: nat := 8000

  /** The dispatcher's time fields. */
  datatype Timers = Timers(outboundExpiry: u32, nextTx: u32, nextFloorCalib: u32, nextAgcReset: u32, nonrxStart: u32)

  /** A single-slot pending request: its expiry when it is valid. */
  type Slot1 = Option<u32>

  ghost function When(cond: bool, t: u32): set<u32> { if cond then {t} else {} }

  /** Everything the dispatcher waits for. */
  ghost function DispatcherItems(p: Pool, t: Timers, inRecv: bool): set<u32>
  {
    PacketItems(p, t) + RadioItems(p, t, inRecv)
  }

  ghost function PacketItems(p: Pool, t: Timers): set<u32>
  {
    When(p.outbound.Some?, t.outboundExpiry) + Schedules(p.send) + Schedules(p.rx)
  }

  ghost function RadioItems(p: Pool, t: Timers, inRecv: bool): set<u32>
  {
    When(p.send != [], t.nextTx) + {t.nextFloorCalib} + When(t.nextAgcReset != 0, t.nextAgcReset)
    + When(!inRecv, Later(t.nonrxStart, NONRX_TIMEOUT))
  }

  /** One candidate of a fold, skipped when it does not apply. */
  method AddTime(now: u32, ghost items: set<u32>, acc: Option<u32>, applies: bool, t: u32) returns (hit: bool, r: Option<u32>)
    requires IsWait(now, items, acc)
    ensures hit ==> r == Some(now) && SomethingDue(When(applies, t), now)
    ensures !hit ==> IsWait(now, items + When(applies, t), r)
  {
    hit, r := false, acc;
    if applies {
      StandIns(now, {t}, t);
      hit, r := Accumulate(now, items, {t}, acc, t);
    } else {
      assert items + When(false, t) == items;
    }
  }

  /** A candidate that another deadline function computed for a group. */
  method AddGroup(now: u32, ghost items: set<u32>, ghost group: set<u32>, acc: Option<u32>, d: Option<u32>)
    returns (hit: bool, r: Option<u32>)
    requires IsWait(now, items, acc) && IsDeadline(now, group, d)
    ensures hit ==> r == Some(now) && SomethingDue(group, now)
    ensures !hit ==> IsWait(now, items + group, r)
  {
    hit, r := false, acc;
    if d.Some? {
      StandIns(now, group, d.value);
      hit, r := Accumulate(now, items, group, acc, d.value);
    } else {
      assert items + group == items;
    }
  }

  lemma {:induction false} DueInLarger(now: u32, group: set<u32>, items: set<u32>)
    requires group <= items && SomethingDue(group, now)
    ensures SomethingDue(items, now) && IsDeadline(now, items, Some(now))
  {}

  lemma UnionAssoc(a: set<u32>, b: set<u32>, c: set<u32>)
    ensures (a + b) + c == a + (b + c)
  {}

  method AddQueue(q: Queue, now: u32, ghost entries: seq<Entry>, ghost items: set<u32>, acc: Option<u32>) returns (hit: bool, r: Option<u32>)
    requires q.Valid() && entries == q.Contents() && IsWait(now, items, acc)
    ensures hit ==> r == Some(now) && SomethingDue(Schedules(entries), now)
    ensures !hit ==> IsWait(now, items + Schedules(entries), r)
  {
    var s := q.NextScheduledGet(now);
    hit, r := AddGroup(now, items, Schedules(entries), acc, s);
  }

  /** The dispatcher's first three candidates. */
  method PacketDeadline(d: Dispatcher, t: Timers, now: u32, ghost p: Pool) returns (hit: bool, r: Option<u32>)
    requires d.Valid() && p == d.State()
    ensures hit ==> r == Some(now) && SomethingDue(PacketItems(p, t), now)
    ensures !hit ==> IsWait(now, PacketItems(p, t), r)
  {
    ghost var first := When(p.outbound.Some?, t.outboundExpiry);
    ghost var second, third := Schedules(p.send), Schedules(p.rx);
    ghost var all := first + second + third;
    hit, r := AddTime(now, {}, None, d.outbound.Some?, t.outboundExpiry);
    if hit {
      DueInLarger(now, first, all);
      return;
    }
    assert {} + first == first;
    hit, r := AddQueue(d.sendQueue, now, p.send, first, r);
    if hit {
      DueInLarger(now, second, all);
      return;
    }
    hit, r := AddQueue(d.rxQueue, now, p.rx, first + second, r);
    if hit {
      DueInLarger(now, third, all);
    }
  }

  /** The dispatcher's last four candidates. */
  method RadioDeadline(ghost p: Pool, queued: nat, t: Timers, inRecv: bool, now: u32, ghost items: set<u32>, acc: Option<u32>)
    returns (hit: bool, r: Option<u32>)
    requires queued == |p.send| && IsWait(now, items, acc)
    ensures hit ==> r == Some(now) && SomethingDue(RadioItems(p, t, inRecv), now)
    ensures !hit ==> IsWait(now, items + RadioItems(p, t, inRecv), r)
  {
    ghost var a := When(queued > 0, t.nextTx);
    ghost var b := When(true, t.nextFloorCalib);
    ghost var c := When(t.nextAgcReset != 0, t.nextAgcReset);
    ghost var e := When(!inRecv, Later(t.nonrxStart, NONRX_TIMEOUT));
    ghost var all := RadioItems(p, t, inRecv);
    assert all == a + b + c + e;
    hit, r := AddTime(now, items, acc, queued > 0, t.nextTx);
    if hit {
      DueInLarger(now, a, all);
      return;
    }
    hit, r := AddTime(now, items + a, r, true, t.nextFloorCalib);
    if hit {
      DueInLarger(now, b, all);
      return;
    }
    hit, r := AddTime(now, items + a + b, r, t.nextAgcReset != 0, t.nextAgcReset);
    if hit {
      DueInLarger(now, c, all);
      return;
    }
    hit, r := AddTime(now, items + a + b + c, r, !inRecv, Later(t.nonrxStart, NONRX_TIMEOUT));
    if hit {
      DueInLarger(now, e, all);
      return;
    }
    UnionAssoc(items, a, b);
    UnionAssoc(items, a + b, c);
    UnionAssoc(items, a + b + c, e);
  }

  /** The dispatcher's fold once its packets are accounted for. */
  method FinishDeadline(ghost p: Pool, queued: nat, t: Timers, inRecv: bool, now: u32, ghost packets: set<u32>,
                        done: bool, acc: Option<u32>) returns (r: Option<u32>)
    requires queued == |p.send|
    requires done ==> acc == Some(now) && SomethingDue(packets, now)
    requires !done ==> IsWait(now, packets, acc)
    ensures IsDeadline(now, packets + RadioItems(p, t, inRecv), r)
  {
    ghost var radio := RadioItems(p, t, inRecv);
    if done {
      DueInLarger(now, packets, packets + radio);
      return acc;
    }
    var hit;
    hit, r := RadioDeadline(p, queued, t, inRecv, now, packets, acc);
    if hit {
      DueInLarger(now, radio, packets + radio);
    }
  }

  /** meshcore_dispatcher_next_deadline_get */
  method DispatcherDeadline(d: Dispatcher, t: Timers, inRecv: bool, now: u32, ghost p: Pool) returns (r: Option<u32>)
    requires d.Valid() && p == d.State()
    ensures IsDeadline(now, DispatcherItems(p, t, inRecv), r)
  {
    ghost var packets := PacketItems(p, t);
    var hit, acc := PacketDeadline(d, t, now, p);
    r := FinishDeadline(p, d.sendQueue.num, t, inRecv, now, packets, hit, acc);
  }

  /** The expiries of the waiting acknowledgements, and of the valid single-slot requests. */
  ghost function AckTimes(slots: seq<PendingAcks.Slot>): set<u32>
  {
    if slots == [] then {}
    else AckTimes(slots[..|slots| - 1]) + (if slots[|slots| - 1].Waiting? then {slots[|slots| - 1].expires} else {})
  }

  ghost function SlotTimes(pending: seq<Slot1>): set<u32>
  {
    if pending == [] then {}
    else SlotTimes(pending[..|pending| - 1]) + (if pending[|pending| - 1].Some? then {pending[|pending| - 1].value} else {})
  }

  lemma {:induction false} AckTimesPrefix(slots: seq<PendingAcks.Slot>, i: nat)
    requires i <= |slots|
    ensures AckTimes(slots[..i]) <= AckTimes(slots)
  {
    if i == |slots| {
      assert slots[..i] == slots;
    } else {
      var front := slots[..|slots| - 1];
      AckTimesPrefix(front, i);
      assert front[..i] == slots[..i];
    }
  }

  lemma {:induction false} SlotTimesPrefix(pending: seq<Slot1>, i: nat)
    requires i <= |pending|
    ensures SlotTimes(pending[..i]) <= SlotTimes(pending)
  {
    if i == |pending| {
      assert pending[..i] == pending;
    } else {
      var front := pending[..|pending| - 1];
      SlotTimesPrefix(front, i);
      assert front[..i] == pending[..i];
    }
  }

  /** meshcore_runtime_correlation_next_deadline_get; the pending slots are discovery, trace,
      telemetry and binary, in this order. */
  method CorrelationDeadline(acks: AckRing, pending: seq<Slot1>, now: u32, ghost slots: seq<PendingAcks.Slot>) returns (r: Option<u32>)
    requires acks.Valid() && |pending| == 4 && slots == acks.Now().slots
    ensures IsDeadline(now, AckTimes(slots) + SlotTimes(pending), r)
  {
    ghost var all := AckTimes(slots) + SlotTimes(pending);
    var hit, acc := AddAcks(acks, now, slots);
    if hit {
      DueInLarger(now, AckTimes(slots), all);
      return acc;
    }
    hit, acc := AddSlots(pending, now, AckTimes(slots), acc);
    if hit {
      DueInLarger(now, SlotTimes(pending), all);
    }
    r := acc;
  }

  method AddAcks(acks: AckRing, now: u32, ghost slots: seq<PendingAcks.Slot>) returns (hit: bool, r: Option<u32>)
    requires acks.Valid() && slots == acks.Now().slots
    ensures hit ==> r == Some(now) && SomethingDue(AckTimes(slots), now)
    ensures !hit ==> IsWait(now, AckTimes(slots), r)
  {
    hit, r := false, None;
    for i := 0 to TABLE
      invariant !hit && IsWait(now, AckTimes(slots[..i]), r)
    {
      assert slots[..i + 1][..i] == slots[..i];
      if !acks.table[i].Waiting? {
        continue;
      }
      ghost var group := When(true, acks.table[i].expires);
      hit, r := AddTime(now, AckTimes(slots[..i]), r, true, acks.table[i].expires);
      if hit {
        AckTimesPrefix(slots, i + 1);
        DueInLarger(now, group, AckTimes(slots));
        return;
      }
    }
    assert slots[..TABLE] == slots;
  }

  method AddSlots(pending: seq<Slot1>, now: u32, ghost items: set<u32>, acc: Option<u32>) returns (hit: bool, r: Option<u32>)
    requires IsWait(now, items, acc)
    ensures hit ==> r == Some(now) && SomethingDue(SlotTimes(pending), now)
    ensures !hit ==> IsWait(now, items + SlotTimes(pending), r)
  {
    hit, r := false, acc;
    assert items + {} == items;
    for i := 0 to |pending|
      invariant !hit && IsWait(now, items + SlotTimes(pending[..i]), r)
    {
      assert pending[..i + 1][..i] == pending[..i];
      ghost var t := if pending[i].Some? then pending[i].value else 0;
      UnionAssoc(items, SlotTimes(pending[..i]), When(pending[i].Some?, t));
      if pending[i].Some? {
        hit, r := AddTime(now, items + SlotTimes(pending[..i]), r, true, pending[i].value);
        if hit {
          SlotTimesPrefix(pending, i + 1);
          DueInLarger(now, When(true, t), SlotTimes(pending));
          return;
        }
      }
    }
    assert pending[..|pending|] == pending;
  }

  /** The fold of meshcore_runtime_next_deadline_get over its two sources. */
  method Combine(now: u32, c: Option<u32>, e: Option<u32>, ghost mine: set<u32>, ghost theirs: set<u32>) returns (r: Option<u32>)
    requires IsDeadline(now, mine, c) && IsDeadline(now, theirs, e)
    ensures IsDeadline(now, mine + theirs, r)
  {
    var hit, acc := AddGroup(now, {}, mine, None, c);
    assert {} + mine == mine;
    if hit {
      DueInLarger(now, mine, mine + theirs);
      return acc;
    }
    hit, acc := AddGroup(now, mine, theirs, acc, e);
    if hit {
      DueInLarger(now, theirs, mine + theirs);
    }
    r := acc;
  }

  /** meshcore_runtime_next_deadline_get: what meshcore_runtime_timer_sync arms the timer with. */
  method RuntimeDeadline(d: Dispatcher, t: Timers, inRecv: bool, acks: AckRing, pending: seq<Slot1>, now: u32,
                         ghost p: Pool, ghost slots: seq<PendingAcks.Slot>) returns (r: Option<u32>)
    requires d.Valid() && acks.Valid() && |pending| == 4 && p == d.State() && slots == acks.Now().slots
    ensures IsDeadline(now, AckTimes(slots) + SlotTimes(pending) + DispatcherItems(p, t, inRecv), r)
  {
    var e := DispatcherDeadline(d, t, inRecv, now, p);
    var c := CorrelationDeadline(acks, pending, now, slots);
    r := Combine(now, c, e, AckTimes(slots) + SlotTimes(pending), DispatcherItems(p, t, inRecv));
  }

  /** The timer is always armed: noise floor calibration alone is a deadline. */
  lemma {:induction false} AlwaysArmed(now: u32, acks: set<u32>, p: Pool, t: Timers, inRecv: bool, r: Option<u32>)
    requires IsDeadline(now, acks + DispatcherItems(p, t, inRecv), r)
    ensures r.Some?
  {
    assert t.nextFloorCalib in DispatcherItems(p, t, inRecv);
  }

  /** Expiry tests and deadlines agree except at exactly half the clock, where the deadline says
      "due" and the expiry test does not. */
  lemma ExpiryVersusDeadline(t: u32, now: u32)
    ensures TimeReached(now, t) <==> Due(t, now) && Ahead(t, now) != HALF
  {}

  // ---- nothing happens before the deadline ----

  /** meshcore_dispatcher_millis_has_now_passed: the clock is strictly behind t. */
  predicate HasPassed(now: u32, t: u32) { Signed(Ahead(now, t)) > 0 }

  lemma PassedVersusDeadline(t: u32, now: u32)
    ensures HasPassed(now, t) <==> Due(t, now) && t != now && Ahead(t, now) != HALF
  {
    AheadCases(t, now);
    AheadCases(now, t);
  }

  /** A pass of the loop at any moment before the deadline leaves every packet where it is: nothing is
      taken from either queue, and the frame in flight does not expire. */
  lemma {:induction false} QuietBeforeDeadline(now: u32, others: set<u32>, p: Pool, t: Timers, inRecv: bool, d: u32, k: nat, l: LoopInput, n: nat)
    requires IsDeadline(now, others + DispatcherItems(p, t, inRecv), Some(d)) && k < Ahead(d, now)
    requires l.expired <==> HasPassed(Later(now, k), t.outboundExpiry)
    ensures Loop(p, l, Later(now, k), n) == p
  {
    var items, at := others + DispatcherItems(p, t, inRecv), Later(now, k);
    FirstDueMoment(now, items, d);
    assert !SomethingDue(items, at);
    if p.outbound.Some? {
      assert t.outboundExpiry in items;
      PassedVersusDeadline(t.outboundExpiry, at);
    } else {
      NotDueYet(p.send, items, at);
      NotDueYet(p.rx, items, at);
      LoopWithoutInbound(p, l, at, n);
      NothingTransmitted(p, l, at, n);
    }
  }

  lemma {:induction false} NotDueYet(q: seq<Entry>, items: set<u32>, at: u32)
    requires Schedules(q) <= items && !SomethingDue(items, at)
    ensures forall i :: 0 <= i < |q| ==> !Due(q[i].sched, at)
  {
    forall i | 0 <= i < |q|
      ensures !Due(q[i].sched, at)
    {
      ScheduledIn(q, q[i].sched);
    }
  }

  lemma {:induction false} AckTimeIn(slots: seq<PendingAcks.Slot>, i: nat)
    requires i < |slots| && slots[i].Waiting?
    ensures slots[i].expires in AckTimes(slots)
  {
    AckTimesPrefix(slots, i + 1);
    assert slots[..i + 1][..i] == slots[..i];
  }

  lemma {:induction false} SlotTimeIn(pending: seq<Slot1>, i: nat)
    requires i < |pending| && pending[i].Some?
    ensures pending[i].value in SlotTimes(pending)
  {
    SlotTimesPrefix(pending, i + 1);
    assert pending[..i + 1][..i] == pending[..i];
  }

  /** Nor does a waiting acknowledgement or a pending request expire: a cleanup would find nothing. */
  lemma {:induction false} NothingExpiresBefore(now: u32, others: set<u32>, slots: seq<PendingAcks.Slot>, pending: seq<Slot1>, d: u32, k: nat)
    requires IsDeadline(now, AckTimes(slots) + SlotTimes(pending) + others, Some(d)) && k < Ahead(d, now)
    ensures Swept(slots, Later(now, k)) == slots
    ensures forall i :: 0 <= i < |pending| && pending[i].Some? ==> !TimeReached(Later(now, k), pending[i].value)
  {
    var items, at := AckTimes(slots) + SlotTimes(pending) + others, Later(now, k);
    FirstDueMoment(now, items, d);
    assert !SomethingDue(items, at);
    forall i | 0 <= i < |slots| && slots[i].Waiting?
      ensures !TimeReached(at, slots[i].expires)
    {
      AckTimeIn(slots, i);
      assert slots[i].expires in items;
      ExpiryVersusDeadline(slots[i].expires, at);
    }
    forall i | 0 <= i < |pending| && pending[i].Some?
      ensures !TimeReached(at, pending[i].value)
    {
      SlotTimeIn(pending, i);
      assert pending[i].value in items;
      ExpiryVersusDeadline(pending[i].value, at);
    }
  }

  /** Nor is the radio's calibration, gain reset or, with packets queued, next transmission time reached. */
  lemma {:induction false} RadioQuietBefore(now: u32, others: set<u32>, p: Pool, t: Timers, inRecv: bool, d: u32, k: nat)
    requires IsDeadline(now, others + DispatcherItems(p, t, inRecv), Some(d)) && k < Ahead(d, now)
    ensures var at := Later(now, k);
            && !HasPassed(at, t.nextFloorCalib) && (p.send != [] ==> !HasPassed(at, t.nextTx))
            && (t.nextAgcReset != 0 ==> !HasPassed(at, t.nextAgcReset))
            && (!inRecv ==> !HasPassed(at, (t.nonrxStart + 8000) % 0x1_0000_0000))
  {
    var items, at := others + DispatcherItems(p, t, inRecv), Later(now, k);
    FirstDueMoment(now, items, d);
    assert !SomethingDue(items, at);
    assert t.nextFloorCalib in items && (p.send != [] ==> t.nextTx in items);
    assert (t.nextAgcReset != 0 ==> t.nextAgcReset in items) && (!inRecv ==> Later(t.nonrxStart, NONRX_TIMEOUT) in items);
    PassedVersusDeadline(t.nextFloorCalib, at);
    PassedVersusDeadline(t.nextTx, at);
    PassedVersusDeadline(t.nextAgcReset, at);
    PassedVersusDeadline(Later(t.nonrxStart, NONRX_TIMEOUT), at);
  }
}
