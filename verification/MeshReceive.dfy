/** The routing decisions of meshcore_mesh_on_recv_packet, on the packet's own buffers: which verdict the
    dispatcher gets, and what the packet looks like then. */
module MeshReceive {
  import opened Words
  import opened WireSpec
  import opened WireCodec
  import opened RoutingSpec
  import opened Routing
  import opened MeshLayer
  import opened PacketPool
  import Trace

  /** The host's and the other layers' answers: forwarding allowed, packet seen before, flood filtered,
      whether a local handler consumed the packet, whether an advert's checks let it through, the SNR, and delays. */
  datatype Answers = Answers(allowed: bool, seen: bool, filtered: bool, found: bool, verified: bool, snr: i8,
                             delay: u32, extraDelays: seq<u32>)

  /** Payload types whose handling ends in meshcore_mesh_route_recv_packet. */
  predicate Routable(kind: u8) { kind in {REQ, RESPONSE, TXT, ACK, ADVERT, GRP_TXT, GRP_DATA, ANON_REQ, PATH} }

  /** Types that mark the packet when a local handler consumed it. */
  predicate Consumable(kind: u8) { kind in {REQ, RESPONSE, TXT, PATH, ANON_REQ} }

  predicate IsDirect(header: u8) { !IsFlood(header) }

  /** A parsed packet. */
  predicate Parsed(p: Packet)
    reads p
  {
    p.Shape() && p.payloadLen <= MAX_PAYLOAD && p.pathLen < 0x100 && ValidPathLen(p.pathLen)
  }

  /** Each verdict with the packet it leaves to be retransmitted. */
  ghost predicate Explained(v: Verdict, header: u8, before: Route, after: Route, key: Key)
  {
    match v
    case Release => true
    case ForwardTrace(_) => IsDirect(header) && PayloadType(header) == TRACE
    case ForwardDirect(_) => IsDirect(header) && NextIs(before, key) && after == Stripped(before)
    case ForwardFlood(pathLen, _) =>
      && IsFlood(header) && Routable(PayloadType(header)) && HasRoom(before)
      && after == Flooded(before, key) && Priority(v) == |after.hops|
  }

  /** The script that carries an acknowledgement on, for a node that is the next hop and may forward:
      plain ones unless seen, nested ones when long enough. `first` is the first payload byte. */
  function AcksFor(header: u8, payloadLen: nat, first: u8, pathLen: u8, h: Answers): Option<Script>
    requires HashCount(pathLen) > 0
  {
    var shorter := WithCount(pathLen, HashCount(pathLen) - 1);
    if h.seen then None
    else if PayloadType(header) == ACK then Some(DirectAcks(payloadLen, shorter, false, 0, h.extraDelays))
    else if PayloadType(header) == MULTIPART && payloadLen >= 5 && first % 16 == ACK
    then Some(DirectAcks(payloadLen - 1, shorter, false, NestedDelay(first), h.extraDelays))
    else None
  }

  /** ((first >> 4) + 1) * 300 */
  function NestedDelay(first: u8): u32
  {
    var f: int := first;
    (f / 16 + 1) * 300
  }

  /** A plain acknowledgement, or one nested in a multipart payload, goes on with one hop less: the hop
      count is the low part of the field. A nested one loses its first byte, and waits 300 ms more for
      each acknowledgement that is still to come. */
  lemma {:induction false} AcksForIff(header: u8, payloadLen: nat, first: u8, pathLen: u8, h: Answers)
    requires HashCount(pathLen) > 0
    ensures var kind, s := header / 4 % 16, AcksFor(header, payloadLen, first, pathLen, h);
            && (s.Some? <==> !h.seen && (kind == 3 || (kind == 10 && payloadLen >= 5 && first % 16 == 3)))
            && (s.Some? ==> s.value.DirectAcks? && s.value.pathLen == pathLen - 1 && !s.value.marked && s.value.delays == h.extraDelays)
            && (s.Some? && kind == 3 ==> s.value.len == payloadLen && s.value.delay == 0)
            && (s.Some? && kind == 10 ==> s.value.len == payloadLen - 1 && s.value.delay == 300 + first / 16 * 300)
  {
    OneHopLess(pathLen);
  }

  lemma OneHopLess(pathLen: u8)
    requires HashCount(pathLen) > 0
    ensures WithCount(pathLen, HashCount(pathLen) - 1) == pathLen - 1
  {}

  /** The payload types by number: 0 to 8 travel on as floods, of which 0, 1, 2, 7 and 8 stop at the node
      they are meant for. */
  lemma KindsByNumber(kind: u8)
    ensures Routable(kind) <==> kind <= 8
    ensures Consumable(kind) <==> kind <= 2 || kind == 7 || kind == 8
  {}

  /** A control packet for this node alone. */
  predicate ZeroHopControl(header: u8, payloadLen: nat, first: u8)
  {
    PayloadType(header) == CONTROL && payloadLen > 0 && first / 0x80 == 1
  }

  method OnRecvPacket(p: Packet, key: Key, h: Answers) returns (v: Verdict, acks: Option<Script>)
    requires Parsed(p)
    modifies p, p.path
    ensures p.pathLen <= 0xFF && Parsed(p)
    ensures !v.ForwardTrace? ==> Explained(v, old(p.header), old(RouteOf(p)), RouteOf(p), key)
    ensures v.ForwardTrace? ==> IsDirect(old(p.header)) && PayloadType(old(p.header)) == TRACE && p.pathLen == old(p.pathLen) + 1
    ensures v.ForwardFlood? ==> v.pathLen == p.pathLen && p.header == old(p.header)
    ensures var kind := PayloadType(old(p.header));
            v.ForwardFlood? <==> IsFlood(old(p.header)) && !h.filtered && Routable(kind) && !h.seen && h.verified
                                 && !(Consumable(kind) && h.found) && HasRoom(old(RouteOf(p))) && h.allowed
    ensures v.ForwardDirect? <==>
            && IsDirect(old(p.header)) && PayloadType(old(p.header)) !in {ACK, MULTIPART, TRACE}
            && !ZeroHopControl(old(p.header), p.payloadLen, p.payload[0])
            && NextIs(old(RouteOf(p)), key) && h.allowed && !h.seen
    ensures v.ForwardTrace? <==>
            && IsDirect(old(p.header)) && PayloadType(old(p.header)) == TRACE && old(Trace.IsTrace(p))
            && Trace.Verdict(old(Trace.WireOf(p)), old(p.payload[p.payloadLen..]) + [Trace.SnrByte(h.snr)], key, h.allowed, h.seen) == Trace.Forward
    ensures acks == if IsDirect(old(p.header)) && HashCount(old(p.pathLen)) > 0 && NextIs(old(RouteOf(p)), key) && h.allowed
                    then AcksFor(old(p.header), p.payloadLen, p.payload[0], old(p.pathLen), h) else None
  {
    var kind := PayloadType(p.header);
    v, acks := Release, None;
    if IsDirect(p.header) && kind == TRACE {
      v := OnTrace(p, key, h);
      return;
    }
    if IsDirect(p.header) && ZeroHopControl(p.header, p.payloadLen, p.payload[0]) {
      return;
    }
    if IsDirect(p.header) && HashCount(p.pathLen) > 0 {
      v, acks := OnDirectTransit(p, key, h);
      return;
    }
    if IsFlood(p.header) && h.filtered {
      return;
    }
    if !Routable(kind) || h.seen || !h.verified {
      return;
    }
    if Consumable(kind) && h.found {
      p.header := 0xFF;
    }
    var r := RouteRecvPacket(p, key, h.allowed);
    if r.Some? {
      ViewCount(p.pathLen, p.path[..]);
      v := ForwardFlood(p.pathLen, h.delay);
    }
  }

  /** The trace branch: a forwarded trace has one more SNR byte. */
  method OnTrace(p: Packet, key: Key, h: Answers) returns (v: Verdict)
    requires Parsed(p)
    modifies p`pathLen, p.path
    ensures Parsed(p) && (v.Release? || v.ForwardTrace?)
    ensures v.ForwardTrace? ==> p.pathLen == old(p.pathLen) + 1 <= MAX_PATH
    ensures v.Release? ==> p.pathLen == old(p.pathLen)
    ensures v.ForwardTrace? <==>
            && old(Trace.IsTrace(p))
            && Trace.Verdict(old(Trace.WireOf(p)), old(p.payload[p.payloadLen..]) + [Trace.SnrByte(h.snr)], key, h.allowed, h.seen) == Trace.Forward
  {
    ghost var n := p.pathLen;
    var o := Trace.ReceiveTrace(p, key, h.snr, h.allowed, h.seen);
    assert p.pathLen == (if o == Trace.Forward then n + 1 else n) by {
      if Trace.IsTrace(p) { assert |Trace.WireOf(p).snrs| == p.pathLen; }
    }
    v := if o == Trace.Forward then ForwardTrace(h.delay) else Release;
  }

  /** A direct packet with hops to go: acknowledgements are re-created along the remaining path, anything
      else is forwarded without this hop. */
  method OnDirectTransit(p: Packet, key: Key, h: Answers) returns (v: Verdict, acks: Option<Script>)
    requires Parsed(p) && IsDirect(p.header) && HashCount(p.pathLen) > 0
    modifies p`pathLen, p.path
    ensures Parsed(p) && Explained(v, p.header, old(RouteOf(p)), RouteOf(p), key) && !v.ForwardFlood? && !v.ForwardTrace?
    ensures acks == if NextIs(old(RouteOf(p)), key) && h.allowed
                    then AcksFor(p.header, p.payloadLen, p.payload[0], old(p.pathLen), h) else None
    ensures v.ForwardDirect? <==> PayloadType(p.header) !in {ACK, MULTIPART} && NextIs(old(RouteOf(p)), key) && h.allowed && !h.seen
  {
    var kind := PayloadType(p.header);
    v, acks := Release, None;
    ghost var before := RouteOf(p);
    var count, size := HashCount(p.pathLen), HashSize(p.pathLen);
    ViewCount(p.pathLen, p.path[..]);
    assert size <= count * size by { MulMono(1, count, size); }
    var same := IsHashMatch(key, p.path, 0, size);
    assert p.path[..][..count * size][..size] == p.path[0..0 + size];
    if !same || !h.allowed {
      return;
    }
    if kind == MULTIPART {
      acks := ForwardMultipart(p, h);
      return;
    }
    if h.seen {
      return;
    }
    var shorter := WithCount(p.pathLen, count - 1);
    RemoveSelf(p);
    if kind == ACK {
      acks := Some(DirectAcks(p.payloadLen, shorter, p.header == 0xFF, 0, h.extraDelays));
      return;
    }
    v := ForwardDirect(h.delay);
  }

  /** meshcore_mesh_forward_multipart_direct: the nested acknowledgement goes on, from a copy. A multipart
      header is never the do-not-retransmit marker. */
  method ForwardMultipart(p: Packet, h: Answers) returns (acks: Option<Script>)
    requires Parsed(p) && HashCount(p.pathLen) > 0 && PayloadType(p.header) == MULTIPART
    ensures acks == AcksFor(p.header, p.payloadLen, p.payload[0], p.pathLen, h)
  {
    acks := None;
    if p.payloadLen == 0 {
      return;
    }
    var first := p.payload[0];
    if first % 16 == ACK && p.payloadLen >= 5 && !h.seen {
      var shorter := WithCount(p.pathLen, HashCount(p.pathLen) - 1);
      acks := Some(DirectAcks(p.payloadLen - 1, shorter, false, NestedDelay(first), h.extraDelays));
    }
  }
}
