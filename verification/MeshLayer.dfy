/** The mesh layer's packet creation and sending: every early return, release and refusal, and the
    places in the library that call them. */
module MeshLayer {
  import opened Words
  import opened Clock32
  import opened PacketQueue
  import opened WireSpec
  import opened Ownership

  const REQ: u8 := 0
  const RESPONSE: u8 := 1
  const TXT: u8 := 2
  const ACK: u8 := 3
  const ADVERT: u8 := 4
  const GRP_TXT: u8 := 5
  const GRP_DATA: u8 := 6
  const ANON_REQ: u8 := 7
  const PATH: u8 := 8
  const TRACE: u8 := 9
  const MULTIPART: u8 := 10
  const CONTROL: u8 := 11
  const RAW: u8 := 15

  /** A packet in hand, with the fields that later decide whether it can be sent. */
  datatype Draft = Draft(id: nat, kind: u8, len: nat)

  /** The arguments of the meshcore_mesh_create_* functions; `sealed` is whether encryption succeeds. */
  datatype Creation =
    | Advert(appLen: nat)
    | Datagram(kind: u8, len: nat, sealed: bool)
    | AnonDatagram(kind: u8, len: nat, sealed: bool)
    | GroupDatagram(kind: u8, len: nat, sealed: bool)
    | AckData(len: nat)
    | MultiAck(len: nat)
    | PathReturn(pathLen: u8, extraLen: nat, sealed: bool)
    | RawData(len: nat)
    | TraceProbe
    | ControlData(len: nat)
    | PeerAdvert(parsed: bool, readKind: u8, readLen: nat)

  const MAX_ADVERT_DATA: nat := 32
  const MAX_COMBINED: nat := MAX_PAYLOAD - 2 - 16

  /** MAC and whole blocks. */
  function SealedLen(len: nat): nat { 2 + 16 * ((len + 15) / 16) }

  /** meshcore_mesh_path_return_extra_fits */
  predicate ExtraFits(pathLen: u8, extraLen: nat)
  {
    ByteLen(pathLen) <= MAX_COMBINED - 5 && extraLen <= MAX_COMBINED - 5 - ByteLen(pathLen)
  }

  /** The checks made before a packet is obtained. */
  predicate Admissible(c: Creation)
  {
    match c
    case Advert(appLen) => appLen <= MAX_ADVERT_DATA
    case Datagram(kind, len, _) => kind in {TXT, REQ, RESPONSE} && len <= MAX_PAYLOAD - 2 - 16 + 1
    case AnonDatagram(kind, len, _) => kind == ANON_REQ && len <= MAX_PAYLOAD - 1 - 32 - 16 + 1
    case GroupDatagram(kind, len, _) => kind in {GRP_TXT, GRP_DATA} && len <= MAX_PAYLOAD - 1 - 16 + 1
    case PathReturn(pathLen, extraLen, _) => ExtraFits(pathLen, extraLen)
    case RawData(len) => len <= MAX_PAYLOAD
    case ControlData(len) => len <= MAX_PAYLOAD
    case _ => true
  }

  /** What a function that got a packet makes of it; none where it must release the packet again. */
  function Filled(c: Creation, id: nat): Option<Draft>
  {
    match c
    case Advert(appLen) => Some(Draft(id, ADVERT, 32 + 4 + 64 + appLen))
    case Datagram(kind, len, sealed) => if sealed then Some(Draft(id, kind, 2 + SealedLen(len))) else None
    case AnonDatagram(kind, len, sealed) => if sealed then Some(Draft(id, kind, 1 + 32 + SealedLen(len))) else None
    case GroupDatagram(kind, len, sealed) => if sealed then Some(Draft(id, kind, 1 + SealedLen(len))) else None
    case AckData(len) => if len <= MAX_PAYLOAD then Some(Draft(id, ACK, len)) else None
    case MultiAck(len) => if len <= MAX_PAYLOAD - 1 then Some(Draft(id, MULTIPART, 1 + len)) else None
    case PathReturn(pathLen, extraLen, sealed) =>
      if sealed then Some(Draft(id, PATH, 2 + SealedLen(1 + ByteLen(pathLen) + (if extraLen > 0 then 1 + extraLen else 5)))) else None
    case RawData(len) => Some(Draft(id, RAW, len))
    case TraceProbe => Some(Draft(id, TRACE, 9))
    case ControlData(len) => Some(Draft(id, CONTROL, len))
    case PeerAdvert(parsed, readKind, readLen) => if parsed && readKind == ADVERT then Some(Draft(id, ADVERT, readLen)) else None
  }

  function Create(p: Pool, c: Creation, n: nat): (Pool, Option<Draft>)
  {
    if !Admissible(c) then (p, None)
    else
      var (p1, id) := Alloc(p);
      if id.None? then (p1, None)
      else
        var d := Filled(c, id.value);
        if d.None? then (Free(p1, id.value, n), None) else (p1, d)
  }

  /** The size checks are enough: whatever is created fits the payload buffer. */
  lemma {:induction false} CreatedFits(c: Creation, id: nat)
    requires Admissible(c) && (c.PeerAdvert? ==> c.readLen <= MAX_PAYLOAD)
    ensures Filled(c, id).Some? ==> Filled(c, id).value.len <= MAX_PAYLOAD
  {
    if c.PathReturn? {
      var plain := 1 + ByteLen(c.pathLen) + (if c.extraLen > 0 then 1 + c.extraLen else 5);
      assert plain <= MAX_COMBINED + 1;
    }
  }

  /** The meshcore_mesh_send_* functions, and the direct hand-over of a re-created acknowledgement;
      `given` is whether a non-empty path or the transport codes came with the call. */
  datatype Sending =
    | Flood(hashSize: nat, delay: u32)
    | FloodByCodes(given: bool, snrCodes: bool, hashSize: nat, delay: u32)
    | Direct(given: bool, pathLen: u8, delay: u32)
    | ZeroHop(delay: u32)
    | ZeroHopByCodes(given: bool, delay: u32)
    | AlongPath(pathLen: u8, delay: u32)

  /** meshcore_dispatcher_send_packet */
  function Dispatch(p: Pool, id: nat, len: nat, field: nat, pri: u8, delay: u32, now: u32, n: nat): Pool
  {
    if !ValidPathLen(field % 0x100) || len > MAX_PAYLOAD then Free(p, id, n) else QueueOut(p, id, pri, Later(now, delay), n)
  }

  function FloodPriority(kind: u8): u8 { if kind == PATH then 2 else if kind == ADVERT then 3 else 1 }

  function FreshPath(hashSize: nat): nat
    requires hashSize > 0
  {
    (hashSize - 1) * 64
  }

  /** The call consumes the packet: it is queued, or released on every refusal. */
  function Send(p: Pool, d: Draft, s: Sending, now: u32, n: nat): Pool
  {
    match s
    case Flood(hashSize, delay) =>
      if d.kind == TRACE || hashSize == 0 || hashSize > 3 then Free(p, d.id, n)
      else Dispatch(p, d.id, d.len, FreshPath(hashSize), FloodPriority(d.kind), delay, now, n)
    case FloodByCodes(given, snrCodes, hashSize, delay) =>
      if !given || d.kind == TRACE || hashSize == 0 || hashSize > 3 then Free(p, d.id, n)
      else
        var size := if snrCodes && hashSize < 3 then hashSize + 1 else hashSize;
        Dispatch(p, d.id, d.len, FreshPath(size), FloodPriority(d.kind), delay, now, n)
    case Direct(given, pathLen, delay) =>
      if !given && pathLen > 0 then Free(p, d.id, n)
      else if d.kind == TRACE then
        if d.len + pathLen > MAX_PAYLOAD then Free(p, d.id, n)
        else Dispatch(p, d.id, d.len + pathLen, 0, 5, delay, now, n)
      else Dispatch(p, d.id, d.len, pathLen, if d.kind == PATH then 1 else 0, delay, now, n)
    case ZeroHop(delay) => Dispatch(p, d.id, d.len, 0, 0, delay, now, n)
    case ZeroHopByCodes(given, delay) =>
      if !given then Free(p, d.id, n) else Dispatch(p, d.id, d.len, 0, 0, delay, now, n)
    case AlongPath(pathLen, delay) => Dispatch(p, d.id, d.len, pathLen, 0, delay, now, n)
  }

  // ---- code that creates and sends ----

  /** One call. `Make` forgets whatever was in hand; `Give` does nothing when the creation failed. */
  datatype Instr = Make(c: Creation) | Give(s: Sending)

  function Exec1(p: Pool, hand: Option<Draft>, i: Instr, now: u32, n: nat): (Pool, Option<Draft>)
  {
    match i
    case Make(c) => Create(p, c, n)
    case Give(s) => if hand.None? then (p, None) else (Send(p, hand.value, s, now, n), None)
  }

  function Exec(p: Pool, hand: Option<Draft>, code: seq<Instr>, now: u32, n: nat): (Pool, Option<Draft>)
    decreases |code|
  {
    if code == [] then (p, hand)
    else
      var (p1, hand1) := Exec1(p, hand, code[0], now, n);
      Exec(p1, hand1, code[1..], now, n)
  }

  /** The library's pieces of code that obtain packets, with what their branches depend on. */
  datatype Script =
    | DirectAcks(len: nat, pathLen: u8, marked: bool, delay: u32, delays: seq<u32>)
    | AckReply(len: nat, flood: bool, pathLen: u8, sealed: bool, hasPath: bool, outPathLen: u8, extraAcks: nat, hashSize: nat)
    | Exchange(c: Creation, s: Sending)

  /** meshcore_mesh_route_direct_recv_acks: one multi-acknowledgement per host-chosen delay, then the plain one. */
  function AckCode(len: nat, pathLen: u8, delay: u32, delays: seq<u32>): seq<Instr>
    decreases |delays|
  {
    if delays == [] then [Make(AckData(len)), Give(AlongPath(pathLen, delay))]
    else
      var later := (delay + delays[0] + 300) % RANGE;
      [Make(MultiAck(len)), Give(AlongPath(pathLen, later))] + AckCode(len, pathLen, later, delays[1..])
  }

  /** The reply to a text message: a PATH reply to a flood, otherwise one or two acknowledgements. */
  function ReplyCode(s: Script): seq<Instr>
    requires s.AckReply?
  {
    if s.flood then [Make(PathReturn(s.pathLen, s.len, s.sealed)), Give(Flood(s.hashSize, 200))]
    else if !s.hasPath then [Make(AckData(s.len)), Give(Flood(s.hashSize, 200))]
    else if s.extraAcks == 0 then [Make(AckData(s.len)), Give(Direct(true, s.outPathLen, 200))]
    else [Make(MultiAck(s.len)), Give(Direct(true, s.outPathLen, 200)), Make(AckData(s.len)), Give(Direct(true, s.outPathLen, SecondDelay(s.len)))]
  }

  /** The second acknowledgement is later only if the first was created; when the pool was empty for
      the first, it is for the second, so only the length matters. */
  function SecondDelay(len: nat): u32 { if len <= MAX_PAYLOAD - 1 then 500 else 200 }

  function Code(s: Script): seq<Instr>
  {
    match s
    case DirectAcks(len, pathLen, marked, delay, delays) => if marked then [] else AckCode(len, pathLen, delay, delays)
    case AckReply(_, _, _, _, _, _, _, _) => ReplyCode(s)
    case Exchange(c, g) => [Make(c), Give(g)]
  }

  function RunScripts(p: Pool, scripts: seq<Script>, now: u32, n: nat): Pool
    decreases |scripts|
  {
    if scripts == [] then p else RunScripts(Exec(p, None, Code(scripts[0]), now, n).0, scripts[1..], now, n)
  }

  // ---- ownership ----

  function InHand(d: Option<Draft>): seq<nat> { if d.Some? then [d.value.id] else [] }

  /** A created packet is in the caller's hand; a failed creation holds nothing. */
  lemma {:induction false} CreateKeeps(p: Pool, c: Creation, hand: seq<nat>, n: nat)
    requires Conserved(p, hand, n)
    ensures var (p1, d) := Create(p, c, n); Conserved(p1, InHand(d) + hand, n)
  {
    assert [] + hand == hand;
    if Admissible(c) {
      AllocKeeps(p, hand, n);
      var (p1, id) := Alloc(p);
      if id.Some? && Filled(c, id.value).None? {
        FreeKeeps(p1, hand, id.value, n);
      }
    }
  }

  lemma {:induction false} DispatchKeeps(p: Pool, hand: seq<nat>, id: nat, len: nat, field: nat, pri: u8, delay: u32, now: u32, n: nat)
    requires Conserved(p, [id] + hand, n) && pri <= 254
    ensures Conserved(Dispatch(p, id, len, field, pri, delay, now, n), hand, n)
  {
    FreeKeeps(p, hand, id, n);
    QueueOutKeeps(p, hand, id, pri, Later(now, delay), n);
  }

  /** Sending consumes the packet on every path, the refusals included. */
  lemma {:induction false} SendKeeps(p: Pool, d: Draft, s: Sending, hand: seq<nat>, now: u32, n: nat)
    requires Conserved(p, [d.id] + hand, n)
    ensures Conserved(Send(p, d, s, now, n), hand, n)
  {
    FreeKeeps(p, hand, d.id, n);
    match s
    case Flood(hashSize, delay) =>
      if 0 < hashSize <= 3 {
        DispatchKeeps(p, hand, d.id, d.len, FreshPath(hashSize), FloodPriority(d.kind), delay, now, n);
      }
    case FloodByCodes(given, snrCodes, hashSize, delay) =>
      if 0 < hashSize <= 3 {
        var size := if snrCodes && hashSize < 3 then hashSize + 1 else hashSize;
        DispatchKeeps(p, hand, d.id, d.len, FreshPath(size), FloodPriority(d.kind), delay, now, n);
      }
    case Direct(given, pathLen, delay) =>
      DispatchKeeps(p, hand, d.id, d.len + pathLen, 0, 5, delay, now, n);
      DispatchKeeps(p, hand, d.id, d.len, pathLen, if d.kind == PATH then 1 else 0, delay, now, n);
    case ZeroHop(delay) =>
      DispatchKeeps(p, hand, d.id, d.len, 0, 0, delay, now, n);
    case ZeroHopByCodes(given, delay) =>
      DispatchKeeps(p, hand, d.id, d.len, 0, 0, delay, now, n);
    case AlongPath(pathLen, delay) =>
      DispatchKeeps(p, hand, d.id, d.len, pathLen, 0, delay, now, n);
  }

  /** A creation followed at once by a sending leaves nothing in hand. */
  lemma {:induction false} PairKeeps(p: Pool, c: Creation, s: Sending, rest: seq<Instr>, hand: seq<nat>, now: u32, n: nat)
    requires Conserved(p, hand, n)
    ensures var p' := Exec(p, None, [Make(c), Give(s)], now, n).0;
            Conserved(p', hand, n) && Exec(p, None, [Make(c), Give(s)] + rest, now, n) == Exec(p', None, rest, now, n)
  {
    CreateKeeps(p, c, hand, n);
    var (p1, d) := Create(p, c, n);
    if d.Some? {
      SendKeeps(p1, d.value, s, hand, now, n);
    } else {
      assert [] + hand == hand;
    }
    var pair: seq<Instr> := [Make(c), Give(s)];
    assert (pair + rest)[0] == Make(c) && (pair + rest)[1..] == [Give(s)] + rest;
    assert ([Give(s)] + rest)[0] == Give(s) && ([Give(s)] + rest)[1..] == rest;
    assert pair[1..] == [Give(s)] && pair[1..][1..] == [];
    var (p2, h2) := Exec1(p1, d, Give(s), now, n);
    assert Exec(p, None, pair, now, n) == Exec(p1, d, pair[1..], now, n) == (p2, h2);
  }

  lemma {:induction false} AckCodeKeeps(p: Pool, len: nat, pathLen: u8, delay: u32, delays: seq<u32>, hand: seq<nat>, now: u32, n: nat)
    requires Conserved(p, hand, n)
    ensures var (p', left) := Exec(p, None, AckCode(len, pathLen, delay, delays), now, n); left == None && Conserved(p', hand, n)
    decreases |delays|
  {
    if delays == [] {
      var c, s := AckData(len), AlongPath(pathLen, delay);
      PairKeeps(p, c, s, [], hand, now, n);
      assert [Make(c), Give(s)] + [] == [Make(c), Give(s)];
    } else {
      var later := (delay + delays[0] + 300) % RANGE;
      var c, s, rest := MultiAck(len), AlongPath(pathLen, later), AckCode(len, pathLen, later, delays[1..]);
      PairKeeps(p, c, s, rest, hand, now, n);
      AckCodeKeeps(Exec(p, None, [Make(c), Give(s)], now, n).0, len, pathLen, later, delays[1..], hand, now, n);
    }
  }

  lemma {:induction false} OnePairKeeps(p: Pool, c: Creation, s: Sending, hand: seq<nat>, now: u32, n: nat)
    requires Conserved(p, hand, n)
    ensures var (p', left) := Exec(p, None, [Make(c), Give(s)], now, n); left == None && Conserved(p', hand, n)
  {
    PairKeeps(p, c, s, [], hand, now, n);
    assert [Make(c), Give(s)] + [] == [Make(c), Give(s)];
  }

  lemma {:induction false} ReplyKeeps(p: Pool, s: Script, hand: seq<nat>, now: u32, n: nat)
    requires Conserved(p, hand, n) && s.AckReply?
    ensures var (p', left) := Exec(p, None, ReplyCode(s), now, n); left == None && Conserved(p', hand, n)
  {
    if s.flood {
      OnePairKeeps(p, PathReturn(s.pathLen, s.len, s.sealed), Flood(s.hashSize, 200), hand, now, n);
    } else if !s.hasPath {
      OnePairKeeps(p, AckData(s.len), Flood(s.hashSize, 200), hand, now, n);
    } else if s.extraAcks == 0 {
      OnePairKeeps(p, AckData(s.len), Direct(true, s.outPathLen, 200), hand, now, n);
    } else {
      var c, g := MultiAck(s.len), Direct(true, s.outPathLen, 200);
      var rest := [Make(AckData(s.len)), Give(Direct(true, s.outPathLen, SecondDelay(s.len)))];
      PairKeeps(p, c, g, rest, hand, now, n);
      assert [Make(c), Give(g)] + rest == ReplyCode(s);
      OnePairKeeps(Exec(p, None, [Make(c), Give(g)], now, n).0, AckData(s.len), Direct(true, s.outPathLen, SecondDelay(s.len)), hand, now, n);
    }
  }

  /** Every piece of code that obtains packets disposes of all of them, whatever else is in hand. */
  lemma {:induction false} ScriptKeeps(p: Pool, s: Script, hand: seq<nat>, now: u32, n: nat)
    requires Conserved(p, hand, n)
    ensures var (p', left) := Exec(p, None, Code(s), now, n); left == None && Conserved(p', hand, n)
  {
    match s
    case DirectAcks(len, pathLen, marked, delay, delays) => AckCodeKeeps(p, len, pathLen, delay, delays, hand, now, n);
    case AckReply(_, _, _, _, _, _, _, _) => ReplyKeeps(p, s, hand, now, n);
    case Exchange(c, g) => OnePairKeeps(p, c, g, hand, now, n);
  }

  lemma {:induction false} ScriptsKeep(p: Pool, scripts: seq<Script>, hand: seq<nat>, now: u32, n: nat)
    requires Conserved(p, hand, n)
    ensures Conserved(RunScripts(p, scripts, now, n), hand, n)
    decreases |scripts|
  {
    if scripts != [] {
      ScriptKeeps(p, scripts[0], hand, now, n);
      ScriptsKeep(Exec(p, None, Code(scripts[0]), now, n).0, scripts[1..], hand, now, n);
    }
  }

  /** Creating without sending does leak: conservation is a property of the code, not of the machine. */
  lemma {:induction false} ForgettingLeaks(p: Pool, n: nat, now: u32)
    requires Conserved(p, [], n) && |p.unused| >= 1
    ensures !Conserved(Exec(p, None, [Make(TraceProbe)], now, n).0, [], n)
  {
    assert [Make(TraceProbe)][1..] == [];
    assert Exec(p, None, [Make(TraceProbe)], now, n) == Create(p, TraceProbe, n);
  }

  // ---- the frame in flight ----

  lemma {:induction false} ExecKeepsOutbound(p: Pool, hand: Option<Draft>, code: seq<Instr>, now: u32, n: nat)
    ensures Exec(p, hand, code, now, n).0.outbound == p.outbound
    decreases |code|
  {
    if code != [] {
      var (p1, h1) := Exec1(p, hand, code[0], now, n);
      ExecKeepsOutbound(p1, h1, code[1..], now, n);
    }
  }

  lemma {:induction false} ScriptsKeepOutbound(p: Pool, scripts: seq<Script>, now: u32, n: nat)
    ensures RunScripts(p, scripts, now, n).outbound == p.outbound
    decreases |scripts|
  {
    if scripts != [] {
      ExecKeepsOutbound(p, None, Code(scripts[0]), now, n);
      ScriptsKeepOutbound(Exec(p, None, Code(scripts[0]), now, n).0, scripts[1..], now, n);
    }
  }
}
