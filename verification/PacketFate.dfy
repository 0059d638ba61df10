/** Where each operation of the dispatcher and the mesh layer leaves the packet it works on: the queue
    entry, its priority and time in numbers, and that nothing else moves. */
module PacketFate {
  import opened Words
  import opened Clock32
  import opened PacketQueue
  import opened WireSpec
  import opened Ownership
  import opened MeshLayer
  import opened PacketPool

  function Queued(p: Pool, id: nat, pri: u8, sched: u32): Pool
  {
    p.(send := p.send + [Entry(id, pri, sched)])
  }

  function Released(p: Pool, id: nat): Pool
  {
    p.(unused := p.unused + [Entry(id, 0, 0)])
  }

  // ---- receiving ----

  /** A forwarded packet is the last entry of the send queue: a direct packet before everything, a
      trace behind, a flood by the hops it has made, each after the delay asked for. */
  lemma {:induction false} ForwardedIsQueued(p: Pool, id: nat, scripts: seq<Script>, v: Verdict, now: u32, n: nat)
    requires Conserved(p, [id], n) && !v.Release? && v.delay < 0x100_0000
    ensures var pri := match v case ForwardTrace(_) => 5 case ForwardFlood(pathLen, _) => pathLen % 64 case _ => 0;
            ProcessRecv(p, id, scripts, v, now, n)
            == Queued(RunScripts(p, scripts, now, n), id, pri, (now + v.delay) % 0x1_0000_0000)
  {
    ScriptsKeep(p, scripts, [id], now, n);
    assert [id] + [] == [id];
    Room(RunScripts(p, scripts, now, n), [], id, n);
    ActionDecodes(v);
  }

  lemma {:induction false} RefusedIsReleased(p: Pool, id: nat, scripts: seq<Script>, now: u32, n: nat)
    requires Conserved(p, [id], n)
    ensures ProcessRecv(p, id, scripts, Release, now, n) == Released(RunScripts(p, scripts, now, n), id)
  {
    ScriptsKeep(p, scripts, [id], now, n);
    assert [id] + [] == [id];
    Room(RunScripts(p, scripts, now, n), [], id, n);
  }

  /** The action word has 24 bits for the delay: exactly the delays that fit are kept. */
  lemma {:induction false} DelayKeptIff(p: Pool, id: nat, scripts: seq<Script>, v: Verdict, now: u32, n: nat)
    requires Conserved(p, [id], n) && !v.Release?
    ensures var q := ProcessRecv(p, id, scripts, v, now, n).send;
            q != [] && q[|q| - 1].packet == id && (q[|q| - 1].sched == (now + v.delay) % 0x1_0000_0000 <==> v.delay < 0x100_0000)
  {
    ScriptsKeep(p, scripts, [id], now, n);
    assert [id] + [] == [id];
    Room(RunScripts(p, scripts, now, n), [], id, n);
    ActionDecodes(v);
    DelayDecodes(v);
    SameMoment(now, v.delay, v.delay % 0x100_0000);
  }

  lemma {:induction false} DelayDecodes(v: Verdict)
    requires !v.Release?
    ensures ActionCode(v) % 0x100_0000 == v.delay % 0x100_0000
  {
    DivModUnique(ActionCode(v), Or(1 + Priority(v), v.delay / 0x100_0000), v.delay % 0x100_0000, 0x100_0000);
  }

  lemma SameMoment(now: u32, a: u32, b: u32)
    ensures (now + a) % 0x1_0000_0000 == (now + b) % 0x1_0000_0000 <==> a == b
  {}

  /** While the handler runs, nothing leaves the send queue and the receive queue stands still. */
  lemma {:induction false} ScriptsOnlyAppend(p: Pool, scripts: seq<Script>, now: u32, n: nat)
    ensures var p' := RunScripts(p, scripts, now, n); p.send <= p'.send && p'.rx == p.rx && p'.outbound == p.outbound
    decreases |scripts|
  {
    if scripts != [] {
      ExecOnlyAppends(p, None, Code(scripts[0]), now, n);
      ScriptsOnlyAppend(Exec(p, None, Code(scripts[0]), now, n).0, scripts[1..], now, n);
    }
  }

  lemma {:induction false} ExecOnlyAppends(p: Pool, hand: Option<Draft>, code: seq<Instr>, now: u32, n: nat)
    ensures var p' := Exec(p, hand, code, now, n).0; p.send <= p'.send && p'.rx == p.rx && p'.outbound == p.outbound
    decreases |code|
  {
    if code != [] {
      var (p1, h1) := Exec1(p, hand, code[0], now, n);
      ExecOnlyAppends(p1, h1, code[1..], now, n);
    }
  }

  /** A received frame: refused without a packet, released when it does not parse, held back when it is
      a flood with a delay of at least 50 ms (at most 32 s), and otherwise handled at once. */
  lemma {:induction false} AcceptedFrame(p: Pool, parses: bool, flood: bool, rxDelay: int, scripts: seq<Script>, v: Verdict, now: u32, n: nat)
    requires Conserved(p, [], n)
    ensures var (p', ok) := Accept(p, parses, flood, rxDelay, scripts, v, now, n);
            if p.unused == [] then p' == p && !ok
            else
              var id := p.unused[0].packet;
              var p1 := p.(unused := p.unused[1..]);
              if !parses then p' == Released(p1, id) && !ok
              else
                && ok
                && (!flood || rxDelay < 50 ==> p' == ProcessRecv(p1, id, scripts, v, now, n))
                && (flood && 50 <= rxDelay <= 32000 ==> p' == p1.(rx := p.rx + [Entry(id, 0, (now + rxDelay) % 0x1_0000_0000)]))
                && (flood && rxDelay > 32000 ==> p' == p1.(rx := p.rx + [Entry(id, 0, (now + 32000) % 0x1_0000_0000)]))
  {
    AllocKeeps(p, [], n);
    if p.unused != [] {
      var (p1, x) := Alloc(p);
      assert [x.value] + [] == [x.value];
      Room(p1, [], x.value, n);
    }
  }

  // ---- transmitting ----

  /** Entry i goes first: it is due, no due entry has a smaller priority value, no earlier one the same. */
  ghost predicate GoesFirst(q: seq<Entry>, now: u32, i: nat)
  {
    && i < |q| && Due(q[i].sched, now)
    && (forall k :: 0 <= k < |q| && Due(q[k].sched, now) ==> q[i].pri <= q[k].pri && (k < i ==> q[i].pri < q[k].pri))
  }

  lemma {:induction false} PickGoesFirst(q: seq<Entry>, now: u32, i: nat)
    requires GoesFirst(q, now, i) && q[i].pri < 0xFF
    ensures Pick(q, now, |q|) == i
  {
    PickIsLeast(q, now, |q|);
    assert DueAt(q, now, i);
    var b := Pick(q, now, |q|);
    assert Due(q[b].sched, now) by { assert DueAt(q, now, b); }
  }

  /** With nothing in flight, a due packet and the radio willing, the first packet goes on the air; one
      that cannot be encoded or started is released. */
  lemma {:induction false} FirstIsTransmitted(p: Pool, l: LoopInput, now: u32, n: nat, i: nat)
    requires Conserved(p, [], n) && p.outbound.None? && GoesFirst(p.send, now, i) && l.mayTransmit
    ensures var p1 := p.(send := p.send[..i] + p.send[i + 1..]);
            CheckSend(p, l, now, n)
            == if l.writes && l.starts then p1.(outbound := Some(p.send[i].packet)) else Released(p1, p.send[i].packet)
  {
    PickGoesFirst(p.send, now, i);
    assert DueAt(p.send, now, i);
    TakeOutbound(p, now, n);
    var (p1, x) := NextOutbound(p, now);
    assert [x.value] + [] == [x.value];
    Room(p1, [], x.value, n);
  }

  /** Some due entry always goes first, so one of the two lemmas around this one applies. */
  lemma {:induction false} SomeGoesFirst(p: Pool, now: u32, n: nat)
    requires Conserved(p, [], n)
    ensures (exists i: nat :: GoesFirst(p.send, now, i)) <==> exists k :: 0 <= k < |p.send| && Due(p.send[k].sched, now)
  {
    var q := p.send;
    PickIsLeast(q, now, |q|);
    if k :| 0 <= k < |q| && Due(q[k].sched, now) {
      var b := Pick(q, now, |q|);
      assert DueAt(q, now, k);
      assert DueAt(q, now, b);
      forall j | 0 <= j < |q| && Due(q[j].sched, now)
        ensures q[b].pri <= q[j].pri && (j < b ==> q[b].pri < q[j].pri)
      {
        assert DueAt(q, now, j);
      }
      assert GoesFirst(q, now, b);
    }
  }

  lemma {:induction false} NothingTransmitted(p: Pool, l: LoopInput, now: u32, n: nat)
    requires p.outbound.None?
    requires !l.mayTransmit || forall k :: 0 <= k < |p.send| ==> !Due(p.send[k].sched, now)
    ensures CheckSend(p, l, now, n) == p
  {
    PickIsLeast(p.send, now, |p.send|);
  }

  /** The frame in flight is released, once. */
  lemma {:induction false} FinishedIsReleased(p: Pool, n: nat)
    requires Conserved(p, [], n)
    ensures FinishTx(p, n) == if p.outbound.Some? then Released(p, p.outbound.value).(outbound := None) else p
  {}

  /** What the radio is given when every frame is reported done and the loop runs again at once. */
  ghost function OnAir(p: Pool, l: LoopInput, now: u32, n: nat, k: nat): seq<nat>
    requires p.outbound.None?
    decreases k
  {
    if k == 0 then []
    else
      var p1 := CheckSend(p, l, now, n);
      if p1.outbound.None? then [] else [p1.outbound.value] + OnAir(FinishTx(p1, n), l, now, n, k - 1)
  }

  /** One frame: picked, sent and reported done. */
  lemma {:induction false} AirStep(p: Pool, l: LoopInput, now: u32, n: nat, b: nat)
    requires Conserved(p, [], n) && p.outbound.None? && l.mayTransmit && l.writes && l.starts
    requires Pick(p.send, now, |p.send|) == b
    ensures var p1 := CheckSend(p, l, now, n);
            var p2 := FinishTx(p1, n);
            p1.outbound == Some(p.send[b].packet) && Conserved(p2, [], n) && p2.outbound.None? && p2.send == Without(p.send, b)
  {
    PickIsLeast(p.send, now, |p.send|);
    assert DueAt(p.send, now, b);
    CheckSendKeeps(p, l, now, n);
    FinishKeeps(CheckSend(p, l, now, n), n);
  }

  /** The radio gets all due packets, by priority and in queue order within one. */
  lemma {:induction false} DrainedToAir(p: Pool, l: LoopInput, now: u32, n: nat, k: nat)
    requires Conserved(p, [], n) && p.outbound.None? && l.mayTransmit && l.writes && l.starts && k >= |p.send|
    ensures OnAir(p, l, now, n, k) == PacketsOf(Drain(p.send, now))
    decreases k
  {
    var q := p.send;
    var b := Pick(q, now, |q|);
    if b < 0 {
      if k > 0 { NothingPicked(p, l, now, n); }
    } else {
      AirStep(p, l, now, n, b);
      DrainedToAir(FinishTx(CheckSend(p, l, now, n), n), l, now, n, k - 1);
      var rest := Drain(Without(q, b), now);
      assert ([q[b]] + rest)[1..] == rest;
    }
  }

  ghost function PacketsOf(q: seq<Entry>): seq<nat>
  {
    if q == [] then [] else [q[0].packet] + PacketsOf(q[1..])
  }

  lemma {:induction false} NothingPicked(p: Pool, l: LoopInput, now: u32, n: nat)
    requires p.outbound.None? && Pick(p.send, now, |p.send|) < 0
    ensures CheckSend(p, l, now, n) == p
  {}

  // ---- the loop ----

  /** While a frame is in flight and has not expired the loop touches no packet; an expired one is
      released first. */
  lemma {:induction false} LoopInFlight(p: Pool, l: LoopInput, now: u32, n: nat)
    requires Conserved(p, [], n) && p.outbound.Some?
    ensures !l.expired ==> Loop(p, l, now, n) == p
    ensures l.expired ==> Loop(p, l, now, n) == Loop(Released(p, p.outbound.value).(outbound := None), l, now, n)
  {}

  /** Of the packets held back the first that is due is handled, and then the send queue is served. */
  lemma {:induction false} LoopHandlesFirst(p: Pool, l: LoopInput, now: u32, n: nat, i: nat)
    requires Conserved(p, [], n) && p.outbound.None? && GoesFirst(p.rx, now, i)
    ensures var p1 := ProcessRecv(p.(rx := p.rx[..i] + p.rx[i + 1..]), p.rx[i].packet, l.scripts, l.verdict, now, n);
            p1.outbound.None? && Loop(p, l, now, n) == CheckSend(p1, l, now, n)
  {
    PickGoesFirst(p.rx, now, i);
    RxKeepsOutbound(p, l, now, n);
  }

  lemma {:induction false} LoopWithoutInbound(p: Pool, l: LoopInput, now: u32, n: nat)
    requires p.outbound.None? && forall k :: 0 <= k < |p.rx| ==> !Due(p.rx[k].sched, now)
    ensures Loop(p, l, now, n) == CheckSend(p, l, now, n)
  {
    PickIsLeast(p.rx, now, |p.rx|);
  }

  /** Host answers with which whatever is due is sent. */
  predicate Willing(l: LoopInput) { l.mayTransmit && l.writes && l.starts && !l.expired }

  lemma DueSoon(now: u32, k: nat)
    requires k < 0x8000_0000
    ensures Due(Later(now, k), now) <==> k == 0
  {}

  lemma {:induction false} HeldBack(p: Pool, id: nat, rest: seq<Entry>, rxDelay: nat, scripts: seq<Script>, v: Verdict, l: LoopInput, now: u32, n: nat)
    requires p == Pool([Entry(id, 0, 0)] + rest, [], [], None) && Conserved(p, [], n) && 50 <= rxDelay <= 32000
    ensures var p1 := Pool(rest, [], [Entry(id, 0, Later(now, rxDelay))], None);
            Step(p, RxInject(true, true, rxDelay, scripts, v, l), now, n) == p1 && Conserved(p1, [], n)
  {
    StepKeeps(p, RxInject(true, true, rxDelay, scripts, v, l), now, n);
    AcceptedFrame(p, true, true, rxDelay, scripts, v, now, n);
    assert p.unused[1..] == rest;
    var p1 := Pool(rest, [], [Entry(id, 0, Later(now, rxDelay))], None);
    assert p1.rx == [] + [Entry(id, 0, Later(now, rxDelay))];
    DueSoon(now, rxDelay);
    LoopWithoutInbound(p1, l, now, n);
    NothingTransmitted(p1, l, now, n);
  }

  lemma {:induction false} Forwarded(p: Pool, id: nat, rest: seq<Entry>, l: LoopInput, now: u32, n: nat)
    requires p == Pool(rest, [], [Entry(id, 0, now)], None) && Conserved(p, [], n)
    requires l.scripts == [] && l.verdict.ForwardFlood? && 0 < l.verdict.delay < 0x100_0000
    ensures Loop(p, l, now, n) == Pool(rest, [Entry(id, l.verdict.pathLen % 64, Later(now, l.verdict.delay))], [], None)
  {
    assert Due(now, now);
    LoopHandlesFirst(p, l, now, n, 0);
    TakeInbound(p, now, n);
    PickGoesFirst(p.rx, now, 0);
    var p0 := Pool(rest, [], [], None);
    assert p.rx[..0] + p.rx[1..] == [];
    ForwardedIsQueued(p0, id, [], l.verdict, now, n);
    var e := Entry(id, l.verdict.pathLen % 64, Later(now, l.verdict.delay));
    assert [] + [e] == [e];
    DueSoon(now, l.verdict.delay);
    NothingTransmitted(Pool(rest, [e], [], None), l, now, n);
  }

  lemma {:induction false} PutOnAir(p: Pool, e: Entry, rest: seq<Entry>, l: LoopInput, n: nat)
    requires p == Pool(rest, [e], [], None) && Conserved(p, [], n) && Willing(l)
    ensures Loop(p, l, e.sched, n) == Pool(rest, [], [], Some(e.packet))
  {
    assert Due(e.sched, e.sched);
    LoopWithoutInbound(p, l, e.sched, n);
    FirstIsTransmitted(p, l, e.sched, n, 0);
    assert p.send[..0] + p.send[1..] == [];
  }

  lemma {:induction false} BackInThePool(p: Pool, id: nat, rest: seq<Entry>, l: LoopInput, now: u32, n: nat)
    requires p == Pool(rest, [], [], Some(id)) && Conserved(p, [], n)
    ensures Step(p, TxDone(l), now, n) == Pool(rest + [Entry(id, 0, 0)], [], [], None)
  {
    FinishedIsReleased(p, n);
    var p1 := Pool(rest + [Entry(id, 0, 0)], [], [], None);
    LoopWithoutInbound(p1, l, now, n);
    NothingTransmitted(p1, l, now, n);
  }

  /** A flood through an idle node: held back for its receive delay, queued for its retransmit delay,
      on the air at that moment, and its packet free again once the radio is done. */
  lemma {:induction false} FloodRelayed(id: nat, rest: seq<Entry>, rxDelay: nat, delay: u32, pathLen: u8, at1: u32, at2: u32, ev: Event,
                                        l1: LoopInput, l2: LoopInput, l3: LoopInput, now: u32, done: u32, n: nat)
    requires Conserved(Pool([Entry(id, 0, 0)] + rest, [], [], None), [], n)
    requires ev.RxInject? && ev.parses && ev.flood && ev.rxDelay == rxDelay && 50 <= rxDelay <= 32000 && at1 == Later(now, rxDelay)
    requires l1.scripts == [] && l1.verdict == ForwardFlood(pathLen, delay) && 0 < delay < 0x100_0000 && at2 == Later(at1, delay)
    requires Willing(l2)
    ensures Step(Pool([Entry(id, 0, 0)] + rest, [], [], None), ev, now, n) == Pool(rest, [], [Entry(id, 0, at1)], None)
    ensures Step(Pool(rest, [], [Entry(id, 0, at1)], None), TimerFired(l1), at1, n) == Pool(rest, [Entry(id, pathLen % 64, at2)], [], None)
    ensures Step(Pool(rest, [Entry(id, pathLen % 64, at2)], [], None), TimerFired(l2), at2, n) == Pool(rest, [], [], Some(id))
    ensures Step(Pool(rest, [], [], Some(id)), TxDone(l3), done, n) == Pool(rest + [Entry(id, 0, 0)], [], [], None)
  {
    HeldBack(Pool([Entry(id, 0, 0)] + rest, [], [], None), id, rest, rxDelay, ev.scripts, ev.verdict, ev.l, now, n);
    var p1 := Pool(rest, [], [Entry(id, 0, at1)], None);
    Forwarded(p1, id, rest, l1, at1, n);
    LoopKeeps(p1, l1, at1, n);
    var p2 := Pool(rest, [Entry(id, pathLen % 64, at2)], [], None);
    PutOnAir(p2, Entry(id, pathLen % 64, at2), rest, l2, n);
    LoopKeeps(p2, l2, at2, n);
    BackInThePool(Pool(rest, [], [], Some(id)), id, rest, l3, done, n);
  }

  // ---- sending ----

  /** meshcore_dispatcher_send_packet with a packet in hand. */
  lemma {:induction false} DispatchedIsQueued(p: Pool, hand: seq<nat>, id: nat, len: nat, field: nat, pri: u8, delay: u32, now: u32, n: nat)
    requires Conserved(p, [id] + hand, n) && field <= 255
    ensures Dispatch(p, id, len, field, pri, delay, now, n)
            == if (field <= 63 || 64 <= field <= 96 || 128 <= field <= 149) && len <= 184
               then Queued(p, id, pri, (now + delay) % 0x1_0000_0000) else Released(p, id)
  {
    Room(p, hand, id, n);
    PathLengths(field);
  }

  /** A flood: never a trace, one to three bytes per hash; PATH 2, advert 3, everything else 1. */
  lemma {:induction false} FloodIsQueued(p: Pool, d: Draft, hashSize: nat, delay: u32, hand: seq<nat>, now: u32, n: nat)
    requires Conserved(p, [d.id] + hand, n)
    ensures Send(p, d, Flood(hashSize, delay), now, n)
            == if d.kind != 9 && 1 <= hashSize <= 3 && d.len <= 184
               then Queued(p, d.id, if d.kind == 8 then 2 else if d.kind == 4 then 3 else 1, (now + delay) % 0x1_0000_0000)
               else Released(p, d.id)
  {
    Room(p, hand, d.id, n);
    if 1 <= hashSize <= 3 { DispatchedIsQueued(p, hand, d.id, d.len, FreshPath(hashSize), FloodPriority(d.kind), delay, now, n); }
  }

  lemma {:induction false} FloodByCodesIsQueued(p: Pool, d: Draft, given: bool, snrCodes: bool, hashSize: nat, delay: u32, hand: seq<nat>, now: u32, n: nat)
    requires Conserved(p, [d.id] + hand, n)
    ensures Send(p, d, FloodByCodes(given, snrCodes, hashSize, delay), now, n)
            == if given && d.kind != 9 && 1 <= hashSize <= 3 && d.len <= 184
               then Queued(p, d.id, if d.kind == 8 then 2 else if d.kind == 4 then 3 else 1, (now + delay) % 0x1_0000_0000)
               else Released(p, d.id)
  {
    Room(p, hand, d.id, n);
    if 1 <= hashSize <= 3 {
      var size := if snrCodes && hashSize < 3 then hashSize + 1 else hashSize;
      DispatchedIsQueued(p, hand, d.id, d.len, FreshPath(size), FloodPriority(d.kind), delay, now, n);
    }
  }

  /** A direct packet: PATH 1, a trace 5 with its path inside the payload, everything else 0. */
  lemma {:induction false} DirectIsQueued(p: Pool, d: Draft, given: bool, pathLen: u8, delay: u32, hand: seq<nat>, now: u32, n: nat)
    requires Conserved(p, [d.id] + hand, n)
    ensures var fits := if d.kind == 9 then d.len + pathLen <= 184
                        else d.len <= 184 && (pathLen <= 63 || 64 <= pathLen <= 96 || 128 <= pathLen <= 149);
            Send(p, d, Direct(given, pathLen, delay), now, n)
            == if (given || pathLen == 0) && fits
               then Queued(p, d.id, if d.kind == 9 then 5 else if d.kind == 8 then 1 else 0, (now + delay) % 0x1_0000_0000)
               else Released(p, d.id)
  {
    Room(p, hand, d.id, n);
    if d.kind == 9 {
      DispatchedIsQueued(p, hand, d.id, d.len + pathLen, 0, 5, delay, now, n);
    } else {
      DispatchedIsQueued(p, hand, d.id, d.len, pathLen, if d.kind == PATH then 1 else 0, delay, now, n);
    }
  }

  lemma {:induction false} ZeroHopIsQueued(p: Pool, d: Draft, given: bool, delay: u32, hand: seq<nat>, now: u32, n: nat)
    requires Conserved(p, [d.id] + hand, n)
    ensures var at := (now + delay) % 0x1_0000_0000;
            && Send(p, d, ZeroHop(delay), now, n) == (if d.len <= 184 then Queued(p, d.id, 0, at) else Released(p, d.id))
            && Send(p, d, ZeroHopByCodes(given, delay), now, n)
               == (if given && d.len <= 184 then Queued(p, d.id, 0, at) else Released(p, d.id))
  {
    Room(p, hand, d.id, n);
    DispatchedIsQueued(p, hand, d.id, d.len, 0, 0, delay, now, n);
  }

  // ---- creating ----

  /** A sealed text is two bytes of MAC and the least whole number of 16-byte blocks that hold it. */
  lemma {:induction false} SealedBlocks(len: nat)
    ensures var s := SealedLen(len); s >= 2 && (s - 2) % 16 == 0 && len <= s - 2 < len + 16
  {}

  /** Which creations succeed, on a pool with a free packet: the limits in bytes. */
  lemma {:induction false} CreatedIff(p: Pool, c: Creation, n: nat)
    requires p.unused != []
    ensures Create(p, c, n).1.Some? <==>
            match c
            case Advert(appLen) => appLen <= 32
            case Datagram(kind, len, sealed) => kind <= 2 && len <= 167 && sealed
            case AnonDatagram(kind, len, sealed) => kind == 7 && len <= 136 && sealed
            case GroupDatagram(kind, len, sealed) => (kind == 5 || kind == 6) && len <= 168 && sealed
            case AckData(len) => len <= 184
            case MultiAck(len) => len <= 183
            case PathReturn(pathLen, extraLen, sealed) => (pathLen % 64) * (pathLen / 64 + 1) + extraLen <= 161 && sealed
            case RawData(len) => len <= 184
            case TraceProbe => true
            case ControlData(len) => len <= 184
            case PeerAdvert(parsed, readKind, readLen) => parsed && readKind == 4
  {}

  /** What is created is the first free packet; the rest of the pool stands still. */
  lemma {:induction false} CreatedIsFirstFree(p: Pool, c: Creation, n: nat)
    requires Conserved(p, [], n)
    ensures var (p', d) := Create(p, c, n);
            && (d.Some? ==> p.unused != [] && p' == p.(unused := p.unused[1..]) && d.value.id == p.unused[0].packet)
            && (d.None? ==> p'.send == p.send && p'.rx == p.rx && p'.outbound == p.outbound && |p'.unused| == |p.unused|)
  {}

  /** The payload each creation makes, in bytes. */
  lemma {:induction false} CreatedLength(p: Pool, c: Creation, n: nat)
    requires Create(p, c, n).1.Some?
    ensures var d := Create(p, c, n).1.value;
            match c
            case Advert(appLen) => d.kind == 4 && d.len == 100 + appLen
            case Datagram(kind, len, _) => d.kind == kind && d.len % 16 == 4 && len + 4 <= d.len < len + 20
            case AnonDatagram(kind, len, _) => d.kind == 7 && d.len % 16 == 3 && len + 35 <= d.len < len + 51
            case GroupDatagram(kind, len, _) => d.kind == kind && d.len % 16 == 3 && len + 3 <= d.len < len + 19
            case AckData(len) => d.kind == 3 && d.len == len
            case MultiAck(len) => d.kind == 10 && d.len == len + 1
            case PathReturn(pathLen, extraLen, _) =>
              var plain := (pathLen % 64) * (pathLen / 64 + 1) + (if extraLen > 0 then extraLen + 2 else 6);
              d.kind == 8 && d.len % 16 == 4 && plain + 4 <= d.len < plain + 20
            case RawData(len) => d.kind == 15 && d.len == len
            case TraceProbe => d.kind == 9 && d.len == 9
            case ControlData(len) => d.kind == 11 && d.len == len
            case PeerAdvert(_, _, readLen) => d.kind == 4 && d.len == readLen
  {}

  // ---- acknowledgements that follow a path ----

  ghost function Total(delays: seq<u32>, k: nat): nat
    requires k <= |delays|
    decreases k
  {
    if k == 0 then 0 else delays[0] + 300 + Total(delays[1..], k - 1)
  }

  /** Acknowledgement i: the multi-acknowledgements each 300 ms and a host-chosen delay after the one
      before, the plain one together with the last of them. */
  ghost function AckAt(delay: nat, delays: seq<u32>, i: nat): nat
    requires i <= |delays|
  {
    delay + Total(delays, if i < |delays| then i + 1 else i)
  }

  lemma {:induction false} PairQueued(p: Pool, c: Creation, pathLen: u8, delay: u32, hand: seq<nat>, rest: seq<Instr>, now: u32, n: nat)
    requires Conserved(p, hand, n) && p.unused != [] && (pathLen <= 63 || 64 <= pathLen <= 96 || 128 <= pathLen <= 149)
    requires c.AckData? || c.MultiAck?
    requires c.len <= 183
    ensures var p' := Queued(p.(unused := p.unused[1..]), p.unused[0].packet, 0, (now + delay) % 0x1_0000_0000);
            Conserved(p', hand, n) && Exec(p, None, [Make(c), Give(AlongPath(pathLen, delay))] + rest, now, n) == Exec(p', None, rest, now, n)
  {
    ExchangeIs(p, c, AlongPath(pathLen, delay), rest, hand, now, n);
    var (p1, d) := Create(p, c, n);
    DispatchedIsQueued(p1, hand, d.value.id, d.value.len, pathLen, 0, delay, now, n);
  }

  /** The entries the acknowledgements leave, in packets from the front of the free list. */
  ghost function AckEntries(free: seq<Entry>, now: u32, delay: u32, delays: seq<u32>): (q: seq<Entry>)
    requires |free| > |delays|
    ensures |q| == |delays| + 1
    decreases |delays|
  {
    if delays == [] then [Entry(free[0].packet, 0, (now + delay) % 0x1_0000_0000)]
    else
      var later := (delay + delays[0] + 300) % RANGE;
      [Entry(free[0].packet, 0, (now + later) % 0x1_0000_0000)] + AckEntries(free[1..], now, later, delays[1..])
  }

  /** With enough free packets all acknowledgements are queued, and nothing else changes. */
  lemma {:induction false} AcksQueued(p: Pool, len: nat, pathLen: u8, delay: u32, delays: seq<u32>, hand: seq<nat>, now: u32, n: nat)
    requires Conserved(p, hand, n) && |p.unused| > |delays| && len <= 183
    requires pathLen <= 63 || 64 <= pathLen <= 96 || 128 <= pathLen <= 149
    ensures Exec(p, None, AckCode(len, pathLen, delay, delays), now, n).0
            == p.(unused := p.unused[|delays| + 1..], send := p.send + AckEntries(p.unused, now, delay, delays))
    decreases |delays|
  {
    if delays == [] {
      PairQueued(p, AckData(len), pathLen, delay, hand, [], now, n);
      var pair: seq<Instr> := [Make(AckData(len)), Give(AlongPath(pathLen, delay))];
      assert pair + [] == pair;
    } else {
      var later := (delay + delays[0] + 300) % RANGE;
      var rest := delays[1..];
      PairQueued(p, MultiAck(len), pathLen, later, hand, AckCode(len, pathLen, later, rest), now, n);
      var e := Entry(p.unused[0].packet, 0, (now + later) % 0x1_0000_0000);
      var p1 := p.(unused := p.unused[1..], send := p.send + [e]);
      AcksQueued(p1, len, pathLen, later, rest, hand, now, n);
      assert p1.unused[|rest| + 1..] == p.unused[|delays| + 1..];
      var more := AckEntries(p1.unused, now, later, rest);
      assert (p.send + [e]) + more == p.send + ([e] + more);
    }
  }

  /** First free packet first, each at its time. */
  lemma {:induction false} AckTimes(free: seq<Entry>, now: u32, delay: u32, delays: seq<u32>, i: nat)
    requires |free| > |delays| && i <= |delays|
    ensures AckEntries(free, now, delay, delays)[i] == Entry(free[i].packet, 0, (now + AckAt(delay, delays, i)) % 0x1_0000_0000)
    decreases |delays|
  {
    if delays != [] {
      AckAtStep(now, delay, delays, i);
      var later := (delay + delays[0] + 300) % RANGE;
      if i > 0 { AckTimes(free[1..], now, later, delays[1..], i - 1); }
    }
  }

  lemma {:induction false} AckAtStep(now: u32, delay: u32, delays: seq<u32>, i: nat)
    requires 0 < |delays| && i <= |delays|
    ensures var later := (delay + delays[0] + 300) % RANGE;
            (now + AckAt(delay, delays, i)) % 0x1_0000_0000
            == (now + (if i == 0 then later else AckAt(later, delays[1..], i - 1))) % 0x1_0000_0000
  {
    var d: nat := delays[0];
    var k := if i < |delays| then i else i - 1;
    assert AckAt(delay, delays, i) == delay + (d + 300) + Total(delays[1..], k);
    WaitAdds(now, delay, d + 300, Total(delays[1..], k));
  }

  lemma WaitAdds(now: u32, delay: u32, d: nat, t: nat)
    ensures (now + ((delay + d) % 0x1_0000_0000 + t)) % 0x1_0000_0000 == (now + (delay + d + t)) % 0x1_0000_0000
  {
    var q := (delay + d) / 0x1_0000_0000;
    ModShift(now + ((delay + d) % 0x1_0000_0000 + t), q, 0x1_0000_0000);
  }

  // ---- the reply to a text message ----

  lemma {:induction false} ExchangeIs(p: Pool, c: Creation, s: Sending, rest: seq<Instr>, hand: seq<nat>, now: u32, n: nat)
    requires Conserved(p, hand, n) && Create(p, c, n).1.Some?
    ensures var (p1, d) := Create(p, c, n);
            var p' := Send(p1, d.value, s, now, n);
            && Conserved(p1, [d.value.id] + hand, n) && Conserved(p', hand, n)
            && Exec(p, None, [Make(c), Give(s)] + rest, now, n) == Exec(p', None, rest, now, n)
  {
    PairKeeps(p, c, s, rest, hand, now, n);
    CreateKeeps(p, c, hand, n);
    var (p1, d) := Create(p, c, n);
    var pair: seq<Instr> := [Make(c), Give(s)];
    assert pair[1..] == [Give(s)] && pair[1..][1..] == [];
    assert Exec(p, None, pair, now, n) == Exec(p1, d, pair[1..], now, n) == (Send(p1, d.value, s, now, n), None);
  }

  /** A flooded text is answered by a flooded PATH reply, a direct one without a known route by a flooded
      acknowledgement; all after 200 ms. */
  lemma {:induction false} ReplyFlooded(p: Pool, s: Script, hand: seq<nat>, now: u32, n: nat)
    requires Conserved(p, hand, n) && p.unused != [] && s.AckReply? && 1 <= s.hashSize <= 3
    requires if s.flood then s.sealed && (s.pathLen % 64) * (s.pathLen / 64 + 1) + s.len <= 161 else !s.hasPath && s.len <= 184
    ensures Exec(p, None, Code(s), now, n).0
            == Queued(p.(unused := p.unused[1..]), p.unused[0].packet, if s.flood then 2 else 1, (now + 200) % 0x1_0000_0000)
  {
    var c := if s.flood then PathReturn(s.pathLen, s.len, s.sealed) else AckData(s.len);
    CreatedIff(p, c, n);
    CreatedLength(p, c, n);
    ExchangeIs(p, c, Flood(s.hashSize, 200), [], hand, now, n);
    assert [Make(c), Give(Flood(s.hashSize, 200))] + [] == Code(s);
    var (p1, d) := Create(p, c, n);
    CreatedFits(c, d.value.id);
    FloodIsQueued(p1, d.value, s.hashSize, 200, hand, now, n);
  }

  /** With a route the acknowledgement goes along it after 200 ms; with a doubled one the
      multi-acknowledgement does, and the plain one 300 ms behind it. */
  lemma {:induction false} ReplyDirect(p: Pool, s: Script, hand: seq<nat>, now: u32, n: nat)
    requires Conserved(p, hand, n) && s.AckReply? && !s.flood && s.hasPath && s.len <= 183
    requires s.outPathLen <= 63 || 64 <= s.outPathLen <= 96 || 128 <= s.outPathLen <= 149
    requires |p.unused| >= if s.extraAcks == 0 then 1 else 2
    ensures var p1 := Queued(p.(unused := p.unused[1..]), p.unused[0].packet, 0, (now + 200) % 0x1_0000_0000);
            Exec(p, None, Code(s), now, n).0
            == if s.extraAcks == 0 then p1 else Queued(p1.(unused := p.unused[2..]), p.unused[1].packet, 0, (now + 500) % 0x1_0000_0000)
  {
    var g := Direct(true, s.outPathLen, 200);
    if s.extraAcks == 0 {
      DirectQueued(p, AckData(s.len), s.outPathLen, 200, [], hand, now, n);
      assert [Make(AckData(s.len)), Give(g)] + [] == Code(s);
    } else {
      var rest := [Make(AckData(s.len)), Give(Direct(true, s.outPathLen, 500))];
      DirectQueued(p, MultiAck(s.len), s.outPathLen, 200, rest, hand, now, n);
      assert [Make(MultiAck(s.len)), Give(g)] + rest == Code(s);
      var p1 := Queued(p.(unused := p.unused[1..]), p.unused[0].packet, 0, (now + 200) % 0x1_0000_0000);
      DirectQueued(p1, AckData(s.len), s.outPathLen, 500, [], hand, now, n);
      assert rest + [] == rest;
      assert p1.unused[1..] == p.unused[2..];
    }
  }

  lemma {:induction false} DirectQueued(p: Pool, c: Creation, pathLen: u8, delay: u32, rest: seq<Instr>, hand: seq<nat>, now: u32, n: nat)
    requires Conserved(p, hand, n) && p.unused != [] && (pathLen <= 63 || 64 <= pathLen <= 96 || 128 <= pathLen <= 149)
    requires c.AckData? || c.MultiAck?
    requires c.len <= 183
    ensures var p' := Queued(p.(unused := p.unused[1..]), p.unused[0].packet, 0, (now + delay) % 0x1_0000_0000);
            Conserved(p', hand, n) && Exec(p, None, [Make(c), Give(Direct(true, pathLen, delay))] + rest, now, n) == Exec(p', None, rest, now, n)
  {
    ExchangeIs(p, c, Direct(true, pathLen, delay), rest, hand, now, n);
    var (p1, d) := Create(p, c, n);
    DirectIsQueued(p1, d.value, true, pathLen, delay, hand, now, n);
  }
}
