/** Routes as lists of hop hashes: floods append, direct packets strip. */
module RoutingSpec {
  import opened Words
  import opened WireSpec

  type Hash = seq<u8>
  type Key = k: seq<u8> | |k| == 32 witness seq(32, _ => 0)

  /** The hash of a node: the first bytes of its public key. */
  function Prefix(key: Key, size: nat): (h: Hash)
    ensures size <= 32 ==> |h| == size
  {
    if size <= 32 then key[..size] else key
  }

  /** A packet's path: the hash size and the hops recorded or still to go. */
  datatype Route = Route(size: nat, hops: seq<Hash>)

  /** The path bytes cut into hops. */
  ghost function Chunks(bytes: seq<u8>, size: nat): seq<Hash>
    requires size > 0
    decreases |bytes|
  {
    if |bytes| < size then [] else [bytes[..size]] + Chunks(bytes[size..], size)
  }

  lemma {:induction false} ChunksOf(bytes: seq<u8>, size: nat, count: nat)
    requires size > 0 && |bytes| == count * size
    ensures |Chunks(bytes, size)| == count
    decreases count
  {
    if count > 0 {
      assert |bytes| == (count - 1) * size + size by { Distrib(size, count - 1, 1); }
      assert 0 <= (count - 1) * size by { MulMono(0, count - 1, size); }
      ChunksOf(bytes[size..], size, count - 1);
    }
  }

  lemma {:induction false} ChunksAppend(bytes: seq<u8>, h: Hash, size: nat, count: nat)
    requires size > 0 && |bytes| == count * size && |h| == size
    ensures Chunks(bytes + h, size) == Chunks(bytes, size) + [h]
    decreases count
  {
    if count == 0 {
      assert (bytes + h)[..size] == h && (bytes + h)[size..] == [];
    } else {
      assert |bytes| == (count - 1) * size + size by { Distrib(size, count - 1, 1); }
      assert 0 <= (count - 1) * size by { MulMono(0, count - 1, size); }
      assert (bytes + h)[..size] == bytes[..size] && (bytes + h)[size..] == bytes[size..] + h;
      ChunksAppend(bytes[size..], h, size, count - 1);
    }
  }

  /** meshcore_mesh_route_recv_packet on a flood that may be forwarded: the 6-bit count wraps. */
  function Flooded(r: Route, key: Key): (r': Route)
  {
    if |r.hops| == 63 then r.(hops := []) else r.(hops := r.hops + [Prefix(key, r.size)])
  }

  predicate HasRoom(r: Route) { (|r.hops| + 1) * r.size <= MAX_PATH }

  /** A direct packet is for this node to forward when its hash is the first hop. */
  predicate NextIs(r: Route, key: Key) { r.hops != [] && r.hops[0] == Prefix(key, r.size) }

  function Stripped(r: Route): Route
    requires r.hops != []
  {
    r.(hops := r.hops[1..])
  }

  // ---- a flood's recorded path is a route ----

  /** The path after the nodes forwarded a fresh flood in this order; none if one had no room. */
  function Recorded(size: nat, nodes: seq<Key>): Option<Route>
  {
    if nodes == [] then Some(Route(size, []))
    else
      var r := Recorded(size, nodes[..|nodes| - 1]);
      if r.None? || !HasRoom(r.value) then None else Some(Flooded(r.value, nodes[|nodes| - 1]))
  }

  /** The path after the nodes accepted and stripped a direct packet in this order. */
  function Followed(r: Route, nodes: seq<Key>): Option<Route>
    decreases |nodes|
  {
    if nodes == [] then Some(r)
    else if !NextIs(r, nodes[0]) then None
    else Followed(Stripped(r), nodes[1..])
  }

  function Hashes(size: nat, nodes: seq<Key>): (hs: seq<Hash>)
    ensures |hs| == |nodes| && forall i :: 0 <= i < |nodes| ==> hs[i] == Prefix(nodes[i], size)
  {
    seq(|nodes|, i requires 0 <= i < |nodes| => Prefix(nodes[i], size))
  }

  lemma {:induction false} RecordedUpTo63(size: nat, nodes: seq<Key>)
    requires 1 <= size <= 3 && |nodes| <= 63
    ensures Recorded(size, nodes).Some? <==> |nodes| * size <= MAX_PATH
    ensures Recorded(size, nodes).Some? ==> Recorded(size, nodes).value == Route(size, Hashes(size, nodes))
  {
    if nodes != [] {
      var before := nodes[..|nodes| - 1];
      RecordedUpTo63(size, before);
      assert Hashes(size, nodes) == Hashes(size, before) + [Prefix(nodes[|nodes| - 1], size)];
    }
  }

  lemma {:induction false} RecordedShort(size: nat, nodes: seq<Key>)
    requires 1 <= size <= 3 && Recorded(size, nodes).Some?
    ensures Recorded(size, nodes).value.size == size && |Recorded(size, nodes).value.hops| <= 63
    ensures size > 1 ==> |nodes| == |Recorded(size, nodes).value.hops| <= 32
  {
    if nodes != [] { RecordedShort(size, nodes[..|nodes| - 1]); }
  }

  /** A forwarded flood records exactly its forwarders unless 64 or more one-byte hops wrapped the count. */
  lemma {:induction false} RecordedExactly(size: nat, nodes: seq<Key>)
    requires 1 <= size <= 3 && Recorded(size, nodes).Some?
    ensures Recorded(size, nodes).value == Route(size, Hashes(size, nodes)) <==> !(size == 1 && |nodes| >= 64)
  {
    RecordedShort(size, nodes);
    if |nodes| <= 63 { RecordedUpTo63(size, nodes); }
  }

  /** The 64th one-byte hop is admitted and empties the recorded path. */
  lemma {:induction false} SixtyFourthHop(nodes: seq<Key>)
    requires |nodes| == 64
    ensures Recorded(1, nodes) == Some(Route(1, []))
  {
    RecordedUpTo63(1, nodes[..63]);
    assert nodes[..|nodes| - 1] == nodes[..63];
  }

  lemma {:induction false} FollowedSuffix(r: Route, nodes: seq<Key>)
    ensures Followed(r, nodes).Some? ==> |nodes| <= |r.hops| && Followed(r, nodes).value == r.(hops := r.hops[|nodes|..])
    decreases |nodes|
  {
    if nodes != [] && NextIs(r, nodes[0]) { FollowedSuffix(Stripped(r), nodes[1..]); }
  }

  /** A route is followed by exactly the nodes its hops name, in order. */
  lemma {:induction false} FollowedIff(r: Route, nodes: seq<Key>)
    requires r.size <= 32
    ensures Followed(r, nodes).Some? <==> |nodes| <= |r.hops| && forall i :: 0 <= i < |nodes| ==> r.hops[i] == nodes[i][..r.size]
    decreases |nodes|
  {
    if nodes != [] && NextIs(r, nodes[0]) {
      FollowedIff(Stripped(r), nodes[1..]);
      if Followed(r, nodes).Some? {
        forall i | 0 <= i < |nodes|
          ensures r.hops[i] == nodes[i][..r.size]
        {
          if i > 0 { assert r.hops[1..][i - 1] == nodes[1..][i - 1][..r.size]; }
        }
      }
    }
  }

  lemma {:induction false} FollowHashes(size: nat, nodes: seq<Key>, k: nat)
    requires k <= |nodes|
    ensures Followed(Route(size, Hashes(size, nodes)[|nodes| - k..]), nodes[|nodes| - k..]) == Some(Route(size, []))
    decreases k
  {
    if k == 0 {
      assert Hashes(size, nodes)[|nodes|..] == [] && nodes[|nodes|..] == [];
    } else {
      var i := |nodes| - k;
      FollowHashes(size, nodes, k - 1);
      assert nodes[i..][1..] == nodes[i + 1..];
      assert Hashes(size, nodes)[i..][1..] == Hashes(size, nodes)[i + 1..];
    }
  }

  /** Flood paths are usable routes: the forwarders of a flood, in order, accept and strip its
      recorded path and it arrives empty; the exception is exactly the wrapped count. */
  lemma {:induction false} FloodPathIsRoute(size: nat, nodes: seq<Key>)
    requires 1 <= size <= 3 && Recorded(size, nodes).Some?
    ensures Followed(Recorded(size, nodes).value, nodes) == Some(Route(size, [])) <==> !(size == 1 && |nodes| >= 64)
  {
    RecordedExactly(size, nodes);
    RecordedShort(size, nodes);
    FollowedSuffix(Recorded(size, nodes).value, nodes);
    FollowHashes(size, nodes, |nodes|);
    assert Hashes(size, nodes)[0..] == Hashes(size, nodes) && nodes[0..] == nodes;
  }
}

/** The path operations on a packet's own buffers. */
module Routing {
  import opened Words
  import opened WireSpec
  import opened WireCodec
  import opened RoutingSpec

  /** The route a path length field and a path buffer stand for. */
  ghost function RouteView(field: u8, path: seq<u8>): Route
    requires ValidPathLen(field) && |path| == MAX_PATH
  {
    Route(HashSize(field), Chunks(path[..ByteLen(field)], HashSize(field)))
  }

  ghost function RouteOf(p: Packet): Route
    requires p.Shape() && p.pathLen < 0x100 && ValidPathLen(p.pathLen)
    reads p, p.path
  {
    RouteView(p.pathLen, p.path[..])
  }

  lemma {:induction false} ViewCount(field: u8, path: seq<u8>)
    requires ValidPathLen(field) && |path| == MAX_PATH
    ensures |RouteView(field, path).hops| == HashCount(field)
  {
    ChunksOf(path[..ByteLen(field)], HashSize(field), HashCount(field));
  }

  /** Writing the hash behind the path and counting it is Flooded, wrap included. */
  lemma {:induction false} FloodView(field: u8, path: seq<u8>, path': seq<u8>, key: Key, n: nat)
    requires ValidPathLen(field) && |path| == |path'| == MAX_PATH && n == ByteLen(field)
    requires n + HashSize(field) <= MAX_PATH && path'[..n + HashSize(field)] == path[..n] + Prefix(key, HashSize(field))
    ensures var f := WithCount(field, HashCount(field) + 1);
            ValidPathLen(f) && RouteView(f, path') == Flooded(RouteView(field, path), key)
  {
    var count, size := HashCount(field), HashSize(field);
    ViewCount(field, path);
    assert (count + 1) * size == n + size by { Distrib(size, count, 1); }
    if count < 63 {
      ChunksAppend(path[..n], Prefix(key, size), size, count);
    }
  }

  /** Moving every later hop to the front and counting one less is Stripped. */
  lemma {:induction false} StripView(field: u8, path: seq<u8>, path': seq<u8>, n: nat)
    requires ValidPathLen(field) && |path| == |path'| == MAX_PATH && HashCount(field) > 0
    requires n + HashSize(field) == ByteLen(field) && path'[..n] == path[HashSize(field)..n + HashSize(field)]
    ensures var f := WithCount(field, HashCount(field) - 1);
            ValidPathLen(f) && RouteView(field, path).hops != [] && RouteView(f, path') == Stripped(RouteView(field, path))
  {
    var count, size := HashCount(field), HashSize(field);
    assert count * size == (count - 1) * size + size by { Distrib(size, count - 1, 1); }
    assert path[..n + size][size..] == path[size..n + size];
  }

  /** meshcore_packet_set_path_hash_count on a field below 256 */
  function WithCount(pathLen: u8, count: nat): (r: u8)
    ensures HashSize(r) == HashSize(pathLen) && HashCount(r) == count % 64
  {
    pathLen / 64 * 64 + count % 64
  }

  /** meshcore_identity_is_hash_match_by_len */
  method IsHashMatch(key: Key, buf: array<u8>, at: nat, len: nat) returns (same: bool)
    requires len <= 32 && at + len <= buf.Length
    ensures same == (buf[at..at + len] == Prefix(key, len))
  {
    for i := 0 to len
      invariant buf[at..at + i] == key[..i]
    {
      if buf[at + i] != key[i] {
        assert buf[at..at + len][i] != key[..len][i];
        return false;
      }
    }
    same := true;
  }

  /** memcpy of the first bytes of the key */
  method CopyHash(key: Key, buf: array<u8>, at: nat, len: nat)
    requires len <= 32 && at + len <= buf.Length
    modifies buf
    ensures buf[..at + len] == old(buf[..at]) + Prefix(key, len) && buf[at + len..] == old(buf[at + len..])
  {
    for i := 0 to len
      invariant buf[..at + i] == old(buf[..at]) + key[..i]
      invariant buf[at + i..] == old(buf[at + i..])
    {
      buf[at + i] := key[i];
    }
  }

  /** meshcore_mesh_route_recv_packet; the result is the hop count it becomes the priority of. */
  method RouteRecvPacket(p: Packet, key: Key, allowed: bool) returns (r: Option<nat>)
    requires p.Shape() && p.pathLen < 0x100 && ValidPathLen(p.pathLen)
    modifies p`pathLen, p.path
    ensures p.pathLen < 0x100 && ValidPathLen(p.pathLen)
    ensures r.Some? <==> IsFlood(p.header) && p.header != 0xFF && HasRoom(old(RouteOf(p))) && allowed
    ensures r.Some? ==> RouteOf(p) == Flooded(old(RouteOf(p)), key) && r.value == |RouteOf(p).hops|
    ensures r.None? ==> RouteOf(p) == old(RouteOf(p))
  {
    var count, size := HashCount(p.pathLen), HashSize(p.pathLen);
    ViewCount(p.pathLen, p.path[..]);
    if !IsFlood(p.header) || p.header == 0xFF || (count + 1) * size > MAX_PATH || !allowed {
      return None;
    }
    assert (count + 1) * size == count * size + size by { Distrib(size, count, 1); }
    CopyHash(key, p.path, count * size, size);
    FloodView(p.pathLen, old(p.path[..]), p.path[..], key, count * size);
    p.pathLen := WithCount(p.pathLen, count + 1);
    ViewCount(p.pathLen, p.path[..]);
    r := Some(HashCount(p.pathLen));
  }

  /** memmove of len bytes to the len bytes before them */
  method MoveDown(buf: array<u8>, at: nat, len: nat)
    requires at + 2 * len <= buf.Length
    modifies buf
    ensures buf[..at] == old(buf[..at]) && buf[at + len..] == old(buf[at + len..])
    ensures buf[at..at + len] == old(buf[at + len..at + 2 * len])
  {
    ghost var was := buf[..];
    for i := 0 to len
      invariant buf[..at] == was[..at] && buf[at + i..] == was[at + i..]
      invariant buf[at..at + i] == was[at + len..at + len + i]
    {
      assert buf[at + len + i] == buf[at + i..][len] == was[at + i..][len];
      buf[at + i] := buf[at + len + i];
      assert was[at + len..at + len + (i + 1)] == was[at + len..at + len + i] + [was[at + len + i]];
      assert buf[at..at + (i + 1)] == buf[at..at + i] + [buf[at + i]];
    }
  }

  /** meshcore_mesh_remove_self_from_path */
  method RemoveSelf(p: Packet)
    requires p.Shape() && p.pathLen < 0x100 && ValidPathLen(p.pathLen)
    modifies p`pathLen, p.path
    ensures p.pathLen < 0x100 && ValidPathLen(p.pathLen)
    ensures old(RouteOf(p)).hops != [] ==> RouteOf(p) == Stripped(old(RouteOf(p)))
    ensures old(RouteOf(p)).hops == [] ==> RouteOf(p) == old(RouteOf(p))
  {
    var count, size := HashCount(p.pathLen), HashSize(p.pathLen);
    ViewCount(p.pathLen, p.path[..]);
    if count == 0 {
      return;
    }
    var n := (count - 1) * size;
    OneLess(count, size);
    ShiftDown(p.path, size, count - 1, n);
    StripView(p.pathLen, old(p.path[..]), p.path[..], n);
    p.pathLen := WithCount(p.pathLen, count - 1);
  }

  lemma OneLess(left: nat, size: nat)
    requires left > 0
    ensures left * size == (left - 1) * size + size && (left - 1) * size >= 0
  {
    Distrib(size, left - 1, 1);
    MulMono(0, left - 1, size);
  }

  lemma ShiftStep(was: seq<u8>, b: seq<u8>, b': seq<u8>, k: nat, size: nat)
    requires k + 2 * size <= |was| == |b| == |b'|
    requires b[..k] == was[size..k + size] && b[k..] == was[k..]
    requires b'[..k] == b[..k] && b'[k + size..] == b[k + size..] && b'[k..k + size] == b[k + size..k + 2 * size]
    ensures b'[..k + size] == was[size..k + 2 * size] && b'[k + size..] == was[k + size..]
  {
    assert b[k + size..k + 2 * size] == b[k..][size..2 * size];
    assert was[k + size..k + 2 * size] == was[k..][size..2 * size];
    assert b'[..k + size] == b'[..k] + b'[k..k + size];
    assert was[size..k + 2 * size] == was[size..k + size] + was[k + size..k + 2 * size];
    assert b[k + size..] == b[k..][size..] && was[k + size..] == was[k..][size..];
  }

  /** n = count * size bytes move down by one hop, hop by hop. */
  method ShiftDown(buf: array<u8>, size: nat, count: nat, n: nat)
    requires 0 < size && n == count * size && n + size <= buf.Length
    modifies buf
    ensures buf[..n] == old(buf[size..n + size])
  {
    ghost var was := buf[..];
    var k: nat := 0;
    ghost var left := count;
    while k < n
      invariant 0 <= left <= count && k + left * size == n && k <= n
      invariant buf[..k] == was[size..k + size] && buf[k..] == was[k..]
      decreases left
    {
      OneLess(left, size);
      ghost var b := buf[..];
      assert b[k..] == was[k..] && b[..k] == was[size..k + size];
      MoveDown(buf, k, size);
      ShiftStep(was, b, buf[..], k, size);
      k := k + size;
      left := left - 1;
    }
  }

  // ---- from a received path to the route that is sent along ----

  /** meshcore_runtime_path_len_decode: byte length and hash size */
  function DecodeLen(field: u8): Option<(nat, nat)>
  {
    if HashSize(field) == 4 || ByteLen(field) > MAX_PATH then None else Some((ByteLen(field), HashSize(field)))
  }

  /** meshcore_runtime_path_len_encode */
  function EncodeLen(size: nat, bytes: nat): Option<u8>
  {
    if size == 0 || size > 3 then None
    else if bytes == 0 then Some((size - 1) * 64)
    else if bytes % size != 0 || bytes / size > 63 then None
    else Some((size - 1) * 64 + bytes / size)
  }

  /** What the host keeps of a path it was told. */
  datatype Learned = Learned(path: seq<u8>, bytes: nat, size: nat, neighbor: bool)

  /** meshcore_runtime_peer_path_publish, as far as the path is concerned */
  function Learn(field: u8, path: seq<u8>, neighbor: bool): Option<Learned>
  {
    var d := DecodeLen(field);
    if d.None? || d.value.0 > |path| then None else Some(Learned(path[..d.value.0], d.value.0, d.value.1, neighbor))
  }

  /** meshcore_runtime_peer_path_get: an empty path counts only for a neighbour */
  function PathFor(l: Learned): Option<u8>
  {
    if l.bytes == 0 && !l.neighbor then None
    else EncodeLen(if l.size == 0 || l.size > 3 then 1 else l.size, l.bytes)
  }

  /** Encoding undoes decoding on every valid path length field. */
  lemma EncodeDecode(field: u8)
    requires ValidPathLen(field)
    ensures DecodeLen(field) == Some((ByteLen(field), HashSize(field))) && EncodeLen(HashSize(field), ByteLen(field)) == Some(field)
  {
    DivModUnique(ByteLen(field), HashCount(field), 0, HashSize(field));
  }

  lemma Glue(d: seq<u8>, n: nat)
    requires n <= |d|
    ensures d == d[..n] + d[n..]
  {}

  /** meshcore_packet_copy_path: a path longer than the buffer is not copied, but its field is returned */
  method CopyPath(dest: array<u8>, src: seq<u8>, field: u8) returns (r: u8)
    requires dest.Length == MAX_PATH && (ByteLen(field) <= MAX_PATH ==> ByteLen(field) <= |src|)
    modifies dest
    ensures r == field
    ensures dest[..] == if ByteLen(field) <= MAX_PATH then src[..ByteLen(field)] + old(dest[ByteLen(field)..]) else old(dest[..])
  {
    var len := ByteLen(field);
    r := field;
    if len > MAX_PATH {
      return;
    }
    for i := 0 to len
      invariant dest[..i] == src[..i] && dest[i..] == old(dest[i..])
    {
      dest[i] := src[i];
    }
    Glue(dest[..], len);
  }

  /** A path that was received, published to the host, fetched again and copied into a packet is the
      same route; it is offered exactly when it has hops or the peer is a neighbour. */
  lemma {:induction false} LearnedRoute(field: u8, path: seq<u8>, dest: seq<u8>, neighbor: bool)
    requires ValidPathLen(field) && |path| == MAX_PATH && |dest| == MAX_PATH
    requires dest[..ByteLen(field)] == path[..ByteLen(field)]
    ensures Learn(field, path, neighbor) == Some(Learned(path[..ByteLen(field)], ByteLen(field), HashSize(field), neighbor))
    ensures var l := Learn(field, path, neighbor).value;
            && l.path == dest[..ByteLen(field)]
            && PathFor(l) == (if ByteLen(field) > 0 || neighbor then Some(field) else None)
    ensures RouteView(field, dest) == RouteView(field, path)
  {
    EncodeDecode(field);
  }

  /** The byte-level form of the route law: the path field and bytes a flood arrived with, learned and
      copied into a direct packet, are accepted and stripped by the flood's forwarders in order. */
  lemma {:induction false} LearnedRouteFollowed(field: u8, path: seq<u8>, dest: seq<u8>, nodes: seq<Key>)
    requires ValidPathLen(field) && |path| == MAX_PATH && |dest| == MAX_PATH
    requires dest[..ByteLen(field)] == path[..ByteLen(field)]
    requires Recorded(HashSize(field), nodes) == Some(RouteView(field, path))
    ensures Followed(RouteView(field, dest), nodes) == Some(Route(HashSize(field), []))
            <==> !(HashSize(field) == 1 && |nodes| >= 64)
  {
    LearnedRoute(field, path, dest, true);
    FloodPathIsRoute(HashSize(field), nodes);
  }
}
