/** The dispatcher's receive and loop code and the public entry points, in place: each is proved to be
    the ownership step of the same name. */
module Engine {
  import opened Words
  import opened Clock32
  import opened PacketQueue
  import opened Ownership
  import opened MeshLayer
  import opened PacketPool
  import opened Dispatcher
  import opened Mesh

  method RunHandler(d: Dispatcher, scripts: seq<Script>, now: u32)
    requires d.Valid()
    modifies d.Repr()
    ensures d.Valid() && d.State() == RunScripts(old(d.State()), scripts, now, d.poolSize)
  {
    var i := 0;
    assert scripts[0..] == scripts;
    while i < |scripts|
      invariant 0 <= i <= |scripts| && d.Valid()
      invariant RunScripts(d.State(), scripts[i..], now, d.poolSize) == RunScripts(old(d.State()), scripts, now, d.poolSize)
    {
      assert scripts[i..][0] == scripts[i] && scripts[i..][1..] == scripts[i + 1..];
      RunScript(d, scripts[i], now);
      i := i + 1;
    }
  }

  /** meshcore_dispatcher_process_recv_packet */
  method ProcessRecvPacket(d: Dispatcher, packet: nat, scripts: seq<Script>, v: Verdict, now: u32)
    requires d.Valid()
    modifies d.Repr()
    ensures d.Valid() && d.State() == ProcessRecv(old(d.State()), packet, scripts, v, now, d.poolSize)
  {
    RunHandler(d, scripts, now);
    ActionDecodes(v);
    var action := ActionCode(v);
    if action == 0 {
      d.FreePacket(packet);
    } else if action == 1 {
      return;
    } else {
      d.QueueOutbound(packet, action / 0x100_0000 - 1, Later(now, action % 0x100_0000));
    }
  }

  /** meshcore_dispatcher_receive_raw */
  method ReceiveRaw(d: Dispatcher, parses: bool, flood: bool, rxDelay: int, scripts: seq<Script>, v: Verdict, now: u32) returns (ok: bool)
    requires d.Valid()
    modifies d.Repr()
    ensures d.Valid() && (d.State(), ok) == Accept(old(d.State()), parses, flood, rxDelay, scripts, v, now, d.poolSize)
  {
    var packet := d.AllocNew();
    if packet.None? {
      return false;
    }
    if !parses {
      d.FreePacket(packet.value);
      return false;
    }
    if flood && rxDelay >= 50 {
      var delay := if rxDelay > 32000 then 32000 else rxDelay;
      d.QueueInbound(packet.value, Later(now, delay));
    } else {
      ProcessRecvPacket(d, packet.value, scripts, v, now);
    }
    ok := true;
  }

  /** meshcore_dispatcher_loop */
  method RunLoop(d: Dispatcher, l: LoopInput, now: u32)
    requires d.Valid()
    modifies d.Repr()
    ensures d.Valid() && d.State() == Loop(old(d.State()), l, now, d.poolSize)
  {
    ghost var p := FinishTx(d.State(), d.poolSize);
    if d.outbound.Some? {
      if l.expired {
        var _ := d.TxDone();
      } else {
        return;
      }
    }
    RxKeepsOutbound(p, l, now, d.poolSize);
    var packet := d.GetNextInbound(now);
    if packet.Some? {
      ProcessRecvPacket(d, packet.value, l.scripts, l.verdict, now);
    }
    d.CheckSendQueue(l, now);
  }

  /** meshcore_radio_rx_inject, meshcore_radio_tx_done, meshcore_timer_fired and the requests */
  method HandleEvent(d: Dispatcher, e: Event, now: u32)
    requires d.Valid()
    modifies d.Repr()
    ensures d.Valid() && d.State() == Step(old(d.State()), e, now, d.poolSize)
  {
    match e
    case RxInject(parses, flood, rxDelay, scripts, v, l) =>
      var ok := ReceiveRaw(d, parses, flood, rxDelay, scripts, v, now);
      if ok { RunLoop(d, l, now); }
    case TxDone(l) =>
      var _ := d.TxDone();
      RunLoop(d, l, now);
    case TimerFired(l) =>
      RunLoop(d, l, now);
    case Request(script) =>
      if d.unused.num > 0 { RunScript(d, script, now); }
  }
}
