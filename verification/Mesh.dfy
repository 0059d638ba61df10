/** meshcore_mesh.c's packet creation and sending, and the code that calls them, as they change the
    dispatcher in place. */
module Mesh {
  import opened Words
  import opened Clock32
  import opened PacketQueue
  import opened WireSpec
  import opened Ownership
  import opened MeshLayer
  import opened Dispatcher

  // ---- meshcore_mesh_create_* ----

  /** Obtain a packet and fill it; a packet that cannot be filled is released again. */
  method ObtainFor(d: Dispatcher, c: Creation) returns (r: Option<Draft>)
    requires d.Valid() && Admissible(c)
    modifies d.Repr()
    ensures d.Valid() && (d.State(), r) == Create(old(d.State()), c, d.poolSize)
  {
    var packet := d.AllocNew();
    if packet.None? {
      return None;
    }
    r := Filled(c, packet.value);
    if r.None? {
      d.FreePacket(packet.value);
    }
  }

  method CreateAdvert(d: Dispatcher, appLen: nat) returns (r: Option<Draft>)
    requires d.Valid()
    modifies d.Repr()
    ensures d.Valid() && (d.State(), r) == Create(old(d.State()), Advert(appLen), d.poolSize)
  {
    if appLen > MAX_ADVERT_DATA {
      return None;
    }
    r := ObtainFor(d, Advert(appLen));
  }

  method CreateDatagram(d: Dispatcher, kind: u8, len: nat, sealed: bool) returns (r: Option<Draft>)
    requires d.Valid()
    modifies d.Repr()
    ensures d.Valid() && (d.State(), r) == Create(old(d.State()), Datagram(kind, len, sealed), d.poolSize)
  {
    if !(kind == TXT || kind == REQ || kind == RESPONSE) || len > MAX_PAYLOAD - 2 - 16 + 1 {
      return None;
    }
    r := ObtainFor(d, Datagram(kind, len, sealed));
  }

  method CreateAnonDatagram(d: Dispatcher, kind: u8, len: nat, sealed: bool) returns (r: Option<Draft>)
    requires d.Valid()
    modifies d.Repr()
    ensures d.Valid() && (d.State(), r) == Create(old(d.State()), AnonDatagram(kind, len, sealed), d.poolSize)
  {
    if kind != ANON_REQ || len > MAX_PAYLOAD - 1 - 32 - 16 + 1 {
      return None;
    }
    r := ObtainFor(d, AnonDatagram(kind, len, sealed));
  }

  method CreateGroupDatagram(d: Dispatcher, kind: u8, len: nat, sealed: bool) returns (r: Option<Draft>)
    requires d.Valid()
    modifies d.Repr()
    ensures d.Valid() && (d.State(), r) == Create(old(d.State()), GroupDatagram(kind, len, sealed), d.poolSize)
  {
    if !(kind == GRP_TXT || kind == GRP_DATA) || len > MAX_PAYLOAD - 1 - 16 + 1 {
      return None;
    }
    r := ObtainFor(d, GroupDatagram(kind, len, sealed));
  }

  /** Obtained before the length is checked. */
  method CreateAckData(d: Dispatcher, len: nat) returns (r: Option<Draft>)
    requires d.Valid()
    modifies d.Repr()
    ensures d.Valid() && (d.State(), r) == Create(old(d.State()), AckData(len), d.poolSize)
  {
    r := ObtainFor(d, AckData(len));
  }

  /** Obtained before the length is checked. */
  method CreateMultiAckData(d: Dispatcher, len: nat) returns (r: Option<Draft>)
    requires d.Valid()
    modifies d.Repr()
    ensures d.Valid() && (d.State(), r) == Create(old(d.State()), MultiAck(len), d.poolSize)
  {
    r := ObtainFor(d, MultiAck(len));
  }

  method CreatePathReturn(d: Dispatcher, pathLen: u8, extraLen: nat, sealed: bool) returns (r: Option<Draft>)
    requires d.Valid()
    modifies d.Repr()
    ensures d.Valid() && (d.State(), r) == Create(old(d.State()), PathReturn(pathLen, extraLen, sealed), d.poolSize)
  {
    if !ExtraFits(pathLen, extraLen) {
      return None;
    }
    r := ObtainFor(d, PathReturn(pathLen, extraLen, sealed));
  }

  method CreateRawData(d: Dispatcher, len: nat) returns (r: Option<Draft>)
    requires d.Valid()
    modifies d.Repr()
    ensures d.Valid() && (d.State(), r) == Create(old(d.State()), RawData(len), d.poolSize)
  {
    if len > MAX_PAYLOAD {
      return None;
    }
    r := ObtainFor(d, RawData(len));
  }

  method CreateTrace(d: Dispatcher) returns (r: Option<Draft>)
    requires d.Valid()
    modifies d.Repr()
    ensures d.Valid() && (d.State(), r) == Create(old(d.State()), TraceProbe, d.poolSize)
  {
    r := ObtainFor(d, TraceProbe);
  }

  method CreateControlData(d: Dispatcher, len: nat) returns (r: Option<Draft>)
    requires d.Valid()
    modifies d.Repr()
    ensures d.Valid() && (d.State(), r) == Create(old(d.State()), ControlData(len), d.poolSize)
  {
    if len > MAX_PAYLOAD {
      return None;
    }
    r := ObtainFor(d, ControlData(len));
  }

  /** The start of meshcore_runtime_request_execute_node_peer_advert */
  method ObtainPeerAdvert(d: Dispatcher, parsed: bool, readKind: u8, readLen: nat) returns (r: Option<Draft>)
    requires d.Valid()
    modifies d.Repr()
    ensures d.Valid() && (d.State(), r) == Create(old(d.State()), PeerAdvert(parsed, readKind, readLen), d.poolSize)
  {
    r := ObtainFor(d, PeerAdvert(parsed, readKind, readLen));
  }

  method CreateAny(d: Dispatcher, c: Creation) returns (r: Option<Draft>)
    requires d.Valid()
    modifies d.Repr()
    ensures d.Valid() && (d.State(), r) == Create(old(d.State()), c, d.poolSize)
  {
    match c
    case Advert(appLen) => r := CreateAdvert(d, appLen);
    case Datagram(kind, len, sealed) => r := CreateDatagram(d, kind, len, sealed);
    case AnonDatagram(kind, len, sealed) => r := CreateAnonDatagram(d, kind, len, sealed);
    case GroupDatagram(kind, len, sealed) => r := CreateGroupDatagram(d, kind, len, sealed);
    case AckData(len) => r := CreateAckData(d, len);
    case MultiAck(len) => r := CreateMultiAckData(d, len);
    case PathReturn(pathLen, extraLen, sealed) => r := CreatePathReturn(d, pathLen, extraLen, sealed);
    case RawData(len) => r := CreateRawData(d, len);
    case TraceProbe => r := CreateTrace(d);
    case ControlData(len) => r := CreateControlData(d, len);
    case PeerAdvert(parsed, readKind, readLen) => r := ObtainPeerAdvert(d, parsed, readKind, readLen);
  }

  // ---- meshcore_mesh_send_* ----

  method SendFlood(d: Dispatcher, packet: Draft, hashSize: nat, delay: u32, now: u32)
    requires d.Valid()
    modifies d.Repr()
    ensures d.Valid() && d.State() == Send(old(d.State()), packet, Flood(hashSize, delay), now, d.poolSize)
  {
    if packet.kind == TRACE || hashSize == 0 || hashSize > 3 {
      d.FreePacket(packet.id);
      return;
    }
    var pri := if packet.kind == PATH then 2 else if packet.kind == ADVERT then 3 else 1;
    d.SendPacket(packet.id, packet.len, (hashSize - 1) * 64, pri, delay, now);
  }

  method SendFloodByTransportCodes(d: Dispatcher, packet: Draft, given: bool, snrCodes: bool, hashSize: nat, delay: u32, now: u32)
    requires d.Valid()
    modifies d.Repr()
    ensures d.Valid() && d.State() == Send(old(d.State()), packet, FloodByCodes(given, snrCodes, hashSize, delay), now, d.poolSize)
  {
    if !given {
      d.FreePacket(packet.id);
      return;
    }
    if packet.kind == TRACE || hashSize == 0 || hashSize > 3 {
      d.FreePacket(packet.id);
      return;
    }
    var size := hashSize;
    if snrCodes && hashSize < 3 {
      size := hashSize + 1;
    }
    var pri := if packet.kind == PATH then 2 else if packet.kind == ADVERT then 3 else 1;
    d.SendPacket(packet.id, packet.len, (size - 1) * 64, pri, delay, now);
  }

  method SendDirect(d: Dispatcher, packet: Draft, given: bool, pathLen: u8, delay: u32, now: u32)
    requires d.Valid()
    modifies d.Repr()
    ensures d.Valid() && d.State() == Send(old(d.State()), packet, Direct(given, pathLen, delay), now, d.poolSize)
  {
    if !given && pathLen > 0 {
      d.FreePacket(packet.id);
      return;
    }
    if packet.kind == TRACE {
      if packet.len + pathLen > MAX_PAYLOAD {
        d.FreePacket(packet.id);
        return;
      }
      d.SendPacket(packet.id, packet.len + pathLen, 0, 5, delay, now);
    } else {
      d.SendPacket(packet.id, packet.len, pathLen, if packet.kind == PATH then 1 else 0, delay, now);
    }
  }

  method SendZeroHop(d: Dispatcher, packet: Draft, delay: u32, now: u32)
    requires d.Valid()
    modifies d.Repr()
    ensures d.Valid() && d.State() == Send(old(d.State()), packet, ZeroHop(delay), now, d.poolSize)
  {
    d.SendPacket(packet.id, packet.len, 0, 0, delay, now);
  }

  method SendZeroHopByTransportCodes(d: Dispatcher, packet: Draft, given: bool, delay: u32, now: u32)
    requires d.Valid()
    modifies d.Repr()
    ensures d.Valid() && d.State() == Send(old(d.State()), packet, ZeroHopByCodes(given, delay), now, d.poolSize)
  {
    if !given {
      d.FreePacket(packet.id);
      return;
    }
    d.SendPacket(packet.id, packet.len, 0, 0, delay, now);
  }

  method SendAny(d: Dispatcher, packet: Draft, s: Sending, now: u32)
    requires d.Valid()
    modifies d.Repr()
    ensures d.Valid() && d.State() == Send(old(d.State()), packet, s, now, d.poolSize)
  {
    match s
    case Flood(hashSize, delay) => SendFlood(d, packet, hashSize, delay, now);
    case FloodByCodes(given, snrCodes, hashSize, delay) =>
      SendFloodByTransportCodes(d, packet, given, snrCodes, hashSize, delay, now);
    case Direct(given, pathLen, delay) => SendDirect(d, packet, given, pathLen, delay, now);
    case ZeroHop(delay) => SendZeroHop(d, packet, delay, now);
    case ZeroHopByCodes(given, delay) => SendZeroHopByTransportCodes(d, packet, given, delay, now);
    case AlongPath(pathLen, delay) => d.SendPacket(packet.id, packet.len, pathLen, 0, delay, now);
  }

  // ---- the callers ----

  /** What a creation and the sending of its packet, if there is one, do. */
  function AfterPair(p: Pool, c: Creation, s: Sending, now: u32, n: nat): Pool
  {
    var (p1, d) := Create(p, c, n);
    if d.None? then p1 else Send(p1, d.value, s, now, n)
  }

  lemma {:induction false} ExecPairThen(p: Pool, c: Creation, s: Sending, rest: seq<Instr>, now: u32, n: nat)
    ensures Exec(p, None, [Make(c), Give(s)] + rest, now, n) == Exec(AfterPair(p, c, s, now, n), None, rest, now, n)
  {
    var code: seq<Instr> := [Make(c), Give(s)] + rest;
    var tail: seq<Instr> := [Give(s)] + rest;
    assert code[0] == Make(c) && code[1..] == tail;
    assert tail[0] == Give(s) && tail[1..] == rest;
    var (p1, h1) := Create(p, c, n);
    assert Exec(p, None, code, now, n) == Exec(p1, h1, tail, now, n);
    var (p2, h2) := Exec1(p1, h1, Give(s), now, n);
    assert Exec(p1, h1, tail, now, n) == Exec(p2, h2, rest, now, n);
  }

  lemma {:induction false} ExecPair(p: Pool, c: Creation, s: Sending, rest: seq<Instr>, now: u32, n: nat)
    ensures Exec(p, None, [Make(c), Give(s)] + rest, now, n) == Exec(AfterPair(p, c, s, now, n), None, rest, now, n)
    ensures Exec(p, None, [Make(c), Give(s)], now, n).0 == AfterPair(p, c, s, now, n)
  {
    ExecPairThen(p, c, s, rest, now, n);
    ExecPairThen(p, c, s, [], now, n);
    assert [Make(c), Give(s)] + [] == [Make(c), Give(s)];
  }

  /** Create, return on NULL, send: the shape of every request and of the single-packet replies. */
  method CreateThenSend(d: Dispatcher, c: Creation, s: Sending, now: u32)
    requires d.Valid()
    modifies d.Repr()
    ensures d.Valid() && d.State() == AfterPair(old(d.State()), c, s, now, d.poolSize)
  {
    var packet := CreateAny(d, c);
    if packet.None? {
      return;
    }
    SendAny(d, packet.value, s, now);
  }

  /** meshcore_mesh_route_direct_recv_acks; delays are the host's answers, one per extra acknowledgement */
  method RouteDirectRecvAcks(d: Dispatcher, len: nat, pathLen: u8, marked: bool, first: u32, delays: seq<u32>, now: u32)
    requires d.Valid()
    modifies d.Repr()
    ensures d.Valid()
    ensures d.State() == Exec(old(d.State()), None, Code(DirectAcks(len, pathLen, marked, first, delays)), now, d.poolSize).0
  {
    if marked {
      return;
    }
    var delay: u32 := first;
    var i := 0;
    assert delays[0..] == delays;
    while i < |delays|
      invariant 0 <= i <= |delays| && d.Valid()
      invariant Exec(d.State(), None, AckCode(len, pathLen, delay, delays[i..]), now, d.poolSize)
                == Exec(old(d.State()), None, AckCode(len, pathLen, first, delays), now, d.poolSize)
    {
      assert delays[i..][0] == delays[i] && delays[i..][1..] == delays[i + 1..];
      delay := (delay + delays[i] + 300) % RANGE;
      PairInPlace(d, MultiAck(len), AlongPath(pathLen, delay), AckCode(len, pathLen, delay, delays[i + 1..]), now);
      i := i + 1;
    }
    var last := [Make(AckData(len)), Give(AlongPath(pathLen, delay))];
    assert delays[i..] == [] && last + [] == last;
    PairInPlace(d, AckData(len), AlongPath(pathLen, delay), [], now);
  }

  /** One creation and sending, with the rest of the script still to run. */
  method PairInPlace(d: Dispatcher, c: Creation, s: Sending, ghost rest: seq<Instr>, now: u32)
    requires d.Valid()
    modifies d.Repr()
    ensures d.Valid()
    ensures Exec(d.State(), None, rest, now, d.poolSize) == Exec(old(d.State()), None, [Make(c), Give(s)] + rest, now, d.poolSize)
  {
    ExecPairThen(d.State(), c, s, rest, now, d.poolSize);
    CreateThenSend(d, c, s, now);
  }

  /** meshcore_runtime_send_ack_or_path_return and meshcore_runtime_send_ack_direct */
  method SendAckReply(d: Dispatcher, s: Script, now: u32)
    requires d.Valid() && s.AckReply?
    modifies d.Repr()
    ensures d.Valid() && d.State() == Exec(old(d.State()), None, ReplyCode(s), now, d.poolSize).0
  {
    if s.flood {
      ExecPair(d.State(), PathReturn(s.pathLen, s.len, s.sealed), Flood(s.hashSize, 200), [], now, d.poolSize);
      CreateThenSend(d, PathReturn(s.pathLen, s.len, s.sealed), Flood(s.hashSize, 200), now);
      return;
    }
    if !s.hasPath {
      ExecPair(d.State(), AckData(s.len), Flood(s.hashSize, 200), [], now, d.poolSize);
      CreateThenSend(d, AckData(s.len), Flood(s.hashSize, 200), now);
      return;
    }
    SendAckDirect(d, s, now);
  }

  method SendAckDirect(d: Dispatcher, s: Script, now: u32)
    requires d.Valid() && s.AckReply? && !s.flood && s.hasPath
    modifies d.Repr()
    ensures d.Valid() && d.State() == Exec(old(d.State()), None, ReplyCode(s), now, d.poolSize).0
  {
    var delay := 200;
    ghost var p := d.State();
    if s.extraAcks > 0 {
      ghost var rest := [Make(AckData(s.len)), Give(Direct(true, s.outPathLen, SecondDelay(s.len)))];
      ExecPair(p, MultiAck(s.len), Direct(true, s.outPathLen, 200), rest, now, d.poolSize);
      assert [Make(MultiAck(s.len)), Give(Direct(true, s.outPathLen, 200))] + rest == ReplyCode(s);
      var first := CreateMultiAckData(d, s.len);
      if first.Some? {
        SendDirect(d, first.value, true, s.outPathLen, delay, now);
        delay := delay + 300;
      }
    }
    ghost var p1 := d.State();
    ExecPair(p1, AckData(s.len), Direct(true, s.outPathLen, if s.extraAcks > 0 then SecondDelay(s.len) else 200), [], now, d.poolSize);
    var packet := CreateAckData(d, s.len);
    if packet.Some? {
      SendDirect(d, packet.value, true, s.outPathLen, delay, now);
    }
  }

  method RunScript(d: Dispatcher, s: Script, now: u32)
    requires d.Valid()
    modifies d.Repr()
    ensures d.Valid() && d.State() == Exec(old(d.State()), None, Code(s), now, d.poolSize).0
  {
    match s
    case DirectAcks(len, pathLen, marked, delay, delays) => RouteDirectRecvAcks(d, len, pathLen, marked, delay, delays, now);
    case AckReply(_, _, _, _, _, _, _, _) => SendAckReply(d, s, now);
    case Exchange(c, g) =>
      ExecPair(d.State(), c, g, [], now, d.poolSize);
      CreateThenSend(d, c, g, now);
  }

  /** meshcore_runtime_request_execute_message_send_to_node, for a text of the given length: flooded, or
      sent along the peer's path when there is one. */
  method MessageSendToNode(d: Dispatcher, textLen: nat, attempt: u8, flood: bool, sealed: bool, hasPath: bool, outPathLen: u8, hashSize: nat, now: u32)
    returns (registered: bool)
    requires d.Valid() && textLen <= 160
    modifies d.Repr()
    ensures d.Valid()
    ensures attempt > 3 && textLen > 158 ==> !registered && d.State() == old(d.State())
    ensures !(attempt > 3 && textLen > 158) ==>
              var len := 5 + textLen + (if attempt > 3 then 2 else 0);
              var s := if flood || !hasPath then Flood(hashSize, 0) else Direct(true, outPathLen, 0);
              && d.State() == AfterPair(old(d.State()), Datagram(TXT, len, sealed), s, now, d.poolSize)
              && registered == Create(old(d.State()), Datagram(TXT, len, sealed), d.poolSize).1.Some?
  {
    if attempt > 3 && textLen > 158 {
      return false;
    }
    var len := 5 + textLen;
    if attempt > 3 {
      len := len + 2;
    }
    var packet := CreateDatagram(d, TXT, len, sealed);
    if packet.None? {
      return false;
    }
    registered := true;
    if flood || !hasPath {
      SendFlood(d, packet.value, hashSize, 0, now);
    } else {
      SendDirect(d, packet.value, true, outPathLen, 0, now);
    }
  }
}
