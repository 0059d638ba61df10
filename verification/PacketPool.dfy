/** The dispatcher's steps as changes of packet ownership: one step per public entry point, and what
    every run keeps. */
module PacketPool {
  import opened Words
  import opened Clock32
  import opened PacketQueue
  import opened WireSpec
  import opened Ownership
  import opened MeshLayer

  // ---- what the mesh layer answers ----

  /** What meshcore_mesh_on_recv_packet returns: release, or retransmit a trace, a direct packet, or a
      flood whose path length field has been counted up. */
  datatype Verdict = Release | ForwardTrace(delay: u32) | ForwardDirect(delay: u32) | ForwardFlood(pathLen: u8, delay: u32)

  /** A flood's priority is its 6-bit hop count. */
  function Priority(v: Verdict): (pri: nat)
    ensures pri <= 63
  {
    match v
    case ForwardTrace(_) => 5
    case ForwardFlood(pathLen, _) => HashCount(pathLen)
    case _ => 0
  }

  /** MESHCORE_ACTION_RETRANSMIT_DELAYED(pri, delay): the delay is not masked to 24 bits. */
  function ActionCode(v: Verdict): nat
  {
    if v.Release? then 0
    else Or(1 + Priority(v), v.delay / 0x100_0000) * 0x100_0000 + v.delay % 0x100_0000
  }

  /** The code is never MANUAL_HOLD, fits in 32 bits, and decodes to a priority of at most 254,
      whatever delay the host asks for; a delay below 2^24 comes back exactly, with its priority. */
  lemma {:induction false} ActionDecodes(v: Verdict)
    ensures var a := ActionCode(v);
            && a < RANGE && a != 1 && (a == 0 <==> v.Release?) && (a != 0 ==> 1 <= a / 0x100_0000 <= 255)
            && (!v.Release? && v.delay < 0x100_0000 ==> a / 0x100_0000 - 1 == Priority(v) && a % 0x100_0000 == v.delay)
  {
    if !v.Release? {
      assert Pow(2, 8) == 0x100 by {
        PowAdd(2, 4, 4);
        assert Pow(2, 4) == 2 * (2 * Pow(2, 2)) && Pow(2, 2) == 2 * (2 * Pow(2, 0));
      }
      OrRange(1 + Priority(v), v.delay / 0x100_0000, 8);
      DivModUnique(ActionCode(v), Or(1 + Priority(v), v.delay / 0x100_0000), v.delay % 0x100_0000, 0x100_0000);
    }
  }

  // ---- steps ----

  /** meshcore_dispatcher_process_recv_packet: the handler runs while it holds the packet. */
  function ProcessRecv(p: Pool, id: nat, scripts: seq<Script>, v: Verdict, now: u32, n: nat): Pool
  {
    ActionDecodes(v);
    var p1 := RunScripts(p, scripts, now, n);
    var a := ActionCode(v);
    if a == 0 then Free(p1, id, n)
    else if a == 1 then p1
    else QueueOut(p1, id, a / 0x100_0000 - 1, Later(now, a % 0x100_0000), n)
  }

  /** Host answers consulted by one pass of the dispatcher loop. */
  datatype LoopInput = LoopInput(expired: bool, scripts: seq<Script>, verdict: Verdict, mayTransmit: bool, writes: bool, starts: bool)

  predicate HasDue(q: seq<Entry>, now: u32)
  {
    if now == 0xFFFF_FFFF then q != [] else exists i :: 0 <= i < |q| && DueAt(q, now, i)
  }

  function NextOutbound(p: Pool, now: u32): (Pool, Option<nat>)
  {
    var b := Pick(p.send, now, |p.send|);
    if b < 0 then (p, None) else (p.(send := Without(p.send, b)), Some(p.send[b].packet))
  }

  function NextInbound(p: Pool, now: u32): (Pool, Option<nat>)
  {
    var b := Pick(p.rx, now, |p.rx|);
    if b < 0 then (p, None) else (p.(rx := Without(p.rx, b)), Some(p.rx[b].packet))
  }

  /** meshcore_dispatcher_check_send, reached only with nothing in flight */
  function CheckSend(p: Pool, l: LoopInput, now: u32, n: nat): Pool
    requires p.outbound.None?
  {
    if !HasDue(p.send, now) || !l.mayTransmit then p else Transmit(p, l, now, n)
  }

  function Transmit(p: Pool, l: LoopInput, now: u32, n: nat): Pool
    requires p.outbound.None?
  {
    var (p1, id) := NextOutbound(p, now);
    if id.None? then p1
    else if !l.writes || !l.starts then Free(p1, id.value, n)
    else p1.(outbound := id)
  }

  /** meshcore_dispatcher_tx_done */
  function FinishTx(p: Pool, n: nat): Pool
  {
    if p.outbound.None? then p else Free(p, p.outbound.value, n).(outbound := None)
  }

  function RxStep(p: Pool, l: LoopInput, now: u32, n: nat): (r: Pool)
  {
    var (p1, id) := NextInbound(p, now);
    if id.None? then p1 else ProcessRecv(p1, id.value, l.scripts, l.verdict, now, n)
  }

  /** meshcore_dispatcher_loop */
  function Loop(p: Pool, l: LoopInput, now: u32, n: nat): Pool
  {
    if p.outbound.Some? && !l.expired then p
    else
      var p1 := RxStep(FinishTx(p, n), l, now, n);
      RxKeepsOutbound(FinishTx(p, n), l, now, n);
      CheckSend(p1, l, now, n)
  }

  datatype Event =
    | RxInject(parses: bool, flood: bool, rxDelay: int, scripts: seq<Script>, verdict: Verdict, l: LoopInput)
    | TxDone(l: LoopInput)
    | TimerFired(l: LoopInput)
    | Request(script: Script)

  /** meshcore_dispatcher_receive_raw; the flag says whether it returned 0 */
  function Accept(p: Pool, parses: bool, flood: bool, rxDelay: int, scripts: seq<Script>, v: Verdict, now: u32, n: nat): (Pool, bool)
  {
    var (p1, id) := Alloc(p);
    if id.None? then (p1, false)
    else if !parses then (Free(p1, id.value, n), false)
    else if flood && rxDelay >= 50
    then (QueueIn(p1, id.value, Later(now, if rxDelay > 32000 then 32000 else rxDelay), n), true)
    else (ProcessRecv(p1, id.value, scripts, v, now, n), true)
  }

  /** meshcore_runtime_request_execute_now: refused when no packet is free */
  function RunRequest(p: Pool, script: Script, now: u32, n: nat): Pool
  {
    if p.unused == [] then p else Exec(p, None, Code(script), now, n).0
  }

  function Step(p: Pool, e: Event, now: u32, n: nat): Pool
  {
    match e
    case RxInject(parses, flood, rxDelay, scripts, v, l) =>
      var (p1, ok) := Accept(p, parses, flood, rxDelay, scripts, v, now, n);
      if ok then Loop(p1, l, now, n) else p1
    case TxDone(l) => Loop(FinishTx(p, n), l, now, n)
    case TimerFired(l) => Loop(p, l, now, n)
    case Request(script) => RunRequest(p, script, now, n)
  }

  lemma {:induction false} RxKeepsOutbound(p: Pool, l: LoopInput, now: u32, n: nat)
    ensures RxStep(p, l, now, n).outbound == p.outbound
  {
    var (p1, id) := NextInbound(p, now);
    ScriptsKeepOutbound(p1, l.scripts, now, n);
  }

  // ---- conservation ----

  lemma {:induction false} ProcessKeeps(p: Pool, id: nat, scripts: seq<Script>, v: Verdict, now: u32, n: nat)
    requires Conserved(p, [id], n)
    ensures Conserved(ProcessRecv(p, id, scripts, v, now, n), [], n)
  {
    ScriptsKeep(p, scripts, [id], now, n);
    ActionDecodes(v);
    var p1 := RunScripts(p, scripts, now, n);
    var a := ActionCode(v);
    assert [id] + [] == [id];
    if a == 0 {
      FreeKeeps(p1, [], id, n);
    } else {
      QueueOutKeeps(p1, [], id, a / 0x100_0000 - 1, Later(now, a % 0x100_0000), n);
    }
  }

  /** A packet taken from a queue is in hand. */
  lemma {:induction false} TakeOutbound(p: Pool, now: u32, n: nat)
    requires Conserved(p, [], n)
    ensures var (p1, x) := NextOutbound(p, now); Conserved(p1, if x.Some? then [x.value] else [], n)
  {
    var b := Pick(p.send, now, |p.send|);
    if b >= 0 {
      forall id: nat
        ensures Once(NextOutbound(p, now).0, [p.send[b].packet], id, n)
      {
        assert Once(p, [], id, n);
        CountWithout(p.send, b, id);
      }
    }
  }

  lemma {:induction false} TakeInbound(p: Pool, now: u32, n: nat)
    requires Conserved(p, [], n)
    ensures var (p1, x) := NextInbound(p, now); Conserved(p1, if x.Some? then [x.value] else [], n)
  {
    var b := Pick(p.rx, now, |p.rx|);
    if b >= 0 {
      forall id: nat
        ensures Once(NextInbound(p, now).0, [p.rx[b].packet], id, n)
      {
        assert Once(p, [], id, n);
        CountWithout(p.rx, b, id);
      }
    }
  }

  lemma {:induction false} CheckSendKeeps(p: Pool, l: LoopInput, now: u32, n: nat)
    requires p.outbound.None? && Conserved(p, [], n)
    ensures Conserved(CheckSend(p, l, now, n), [], n)
  {
    TakeOutbound(p, now, n);
    var (p1, x) := NextOutbound(p, now);
    if x.Some? {
      assert [x.value] + [] == [x.value];
      FreeKeeps(p1, [], x.value, n);
      forall id: nat
        ensures Once(p1.(outbound := x), [], id, n)
      {
        assert Once(p1, [x.value], id, n);
      }
    }
  }

  lemma {:induction false} FinishKeeps(p: Pool, n: nat)
    requires Conserved(p, [], n)
    ensures Conserved(FinishTx(p, n), [], n)
  {
    if p.outbound.Some? {
      var id := p.outbound.value;
      assert [id] + [] == [id];
      forall i: nat
        ensures Once(p.(outbound := None), [id], i, n)
      {
        assert Once(p, [], i, n);
      }
      FreeKeeps(p.(outbound := None), [], id, n);
      assert FinishTx(p, n) == Free(p.(outbound := None), id, n);
    }
  }

  lemma {:induction false} LoopKeeps(p: Pool, l: LoopInput, now: u32, n: nat)
    requires Conserved(p, [], n)
    ensures Conserved(Loop(p, l, now, n), [], n)
  {
    if !(p.outbound.Some? && !l.expired) {
      FinishKeeps(p, n);
      var p0 := FinishTx(p, n);
      TakeInbound(p0, now, n);
      var (p1, x) := NextInbound(p0, now);
      if x.Some? { ProcessKeeps(p1, x.value, l.scripts, l.verdict, now, n); }
      RxKeepsOutbound(p0, l, now, n);
      CheckSendKeeps(RxStep(p0, l, now, n), l, now, n);
    }
  }

  /** Every entry point conserves the pool. */
  lemma {:induction false} StepKeeps(p: Pool, e: Event, now: u32, n: nat)
    requires Conserved(p, [], n)
    ensures Conserved(Step(p, e, now, n), [], n)
  {
    match e
    case RxInject(parses, flood, rxDelay, scripts, v, l) =>
      AllocKeeps(p, [], n);
      var (p1, id) := Alloc(p);
      if id.Some? {
        assert [id.value] + [] == [id.value];
        if !parses {
          FreeKeeps(p1, [], id.value, n);
        } else if flood && rxDelay >= 50 {
          var sched := Later(now, if rxDelay > 32000 then 32000 else rxDelay);
          QueueInKeeps(p1, [], id.value, sched, n);
          LoopKeeps(QueueIn(p1, id.value, sched, n), l, now, n);
        } else {
          ProcessKeeps(p1, id.value, scripts, v, now, n);
          LoopKeeps(ProcessRecv(p1, id.value, scripts, v, now, n), l, now, n);
        }
      }
    case TxDone(l) =>
      FinishKeeps(p, n);
      LoopKeeps(FinishTx(p, n), l, now, n);
    case TimerFired(l) =>
      LoopKeeps(p, l, now, n);
    case Request(script) =>
      ScriptKeeps(p, script, [], now, n);
  }

  // ---- every run ----

  function Fresh(n: nat): seq<Entry>
  {
    if n == 0 then [] else Fresh(n - 1) + [Entry(n - 1, 0, 0)]
  }

  lemma {:induction false} FreshCount(n: nat, id: nat)
    ensures |Fresh(n)| == n && Count(Fresh(n), id) == if id < n then 1 else 0
  {
    if n > 0 {
      FreshCount(n - 1, id);
      CountSnoc(Fresh(n - 1), Entry(n - 1, 0, 0), id);
    }
  }

  ghost function Run(p: Pool, events: seq<(Event, u32)>, n: nat): Pool
  {
    if events == [] then p
    else Step(Run(p, events[..|events| - 1], n), events[|events| - 1].0, events[|events| - 1].1, n)
  }

  /** From the prepared pool, whatever the hosts and peers do, no packet is lost or duplicated. */
  lemma {:induction false} RunConserves(events: seq<(Event, u32)>, n: nat)
    ensures Conserved(Run(Pool(Fresh(n), [], [], None), events, n), [], n)
  {
    if events == [] {
      FreshCount(n, 0);
      forall id: nat
        ensures Once(Pool(Fresh(n), [], [], None), [], id, n)
      {
        FreshCount(n, id);
      }
    } else {
      var before := events[..|events| - 1];
      RunConserves(before, n);
      StepKeeps(Run(Pool(Fresh(n), [], [], None), before, n), events[|events| - 1].0, events[|events| - 1].1, n);
    }
  }

  /** A frame stays on the air until it is reported done or expires: nothing else replaces it. */
  lemma {:induction false} OneFrameOnAir(p: Pool, e: Event, now: u32, n: nat)
    requires p.outbound.Some? && !e.TxDone?
    requires e.RxInject? || e.TimerFired? ==> !e.l.expired
    ensures Step(p, e, now, n).outbound == p.outbound
  {
    match e
    case RxInject(_, _, _, scripts, v, l) =>
      var (p1, id) := Alloc(p);
      if id.Some? { ScriptsKeepOutbound(p1, scripts, now, n); }
    case TimerFired(_) =>
    case Request(script) => ExecKeepsOutbound(p, None, Code(script), now, n);
  }

  /** In every reachable state the queues hand out a packet exactly when one is due. */
  lemma {:induction false} PickFindsDue(p: Pool, n: nat, now: u32)
    requires Conserved(p, [], n)
    ensures Pick(p.send, now, |p.send|) < 0 <==> forall i :: 0 <= i < |p.send| ==> !DueAt(p.send, now, i)
    ensures Pick(p.rx, now, |p.rx|) < 0 <==> forall i :: 0 <= i < |p.rx| ==> !DueAt(p.rx, now, i)
  {
    PickIsLeast(p.send, now, |p.send|);
    PickIsLeast(p.rx, now, |p.rx|);
  }
}
