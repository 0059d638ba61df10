/** The repeater's forwarding policy and what it implies for every flood in a network. */
module LoopDetect {
  import opened Words
  import opened WireSpec
  import opened WireCodec
  import opened RoutingSpec
  import opened Routing

  datatype Level = Off | Minimal | Moderate | Strict

  function Maximums(level: Level): (table: seq<nat>)
    ensures |table| == 4
  {
    match level
    case Minimal => [0, 4, 2, 1]
    case Moderate => [0, 2, 1, 1]
    case _ => [0, 1, 1, 1]
  }

  /** The host's policy: whether it is available, the local role, and its fields. */
  datatype Policy = Policy(available: bool, repeater: bool, disableFwd: bool, floodMax: u8, level: Level,
                           clientRepeat: bool, identityReady: bool)

  /** How many hops start with h. */
  function Visits(hops: seq<Hash>, h: Hash): nat
  {
    if hops == [] then 0 else (if h <= hops[0] then 1 else 0) + Visits(hops[1..], h)
  }

  /** A hop carries one trailing SNR byte when the packet is flagged so. */
  predicate Looped(r: Route, key: Key, level: Level, snr: bool, identityReady: bool)
    requires 1 <= r.size <= 3
  {
    var hashSize := if snr then r.size - 1 else r.size;
    identityReady && hashSize > 0 && Visits(r.hops, Prefix(key, hashSize)) >= Maximums(level)[hashSize]
  }

  /** meshcore_runtime_packet_is_looped */
  method PacketIsLooped(p: Packet, key: Key, level: Level, snr: bool, identityReady: bool) returns (looped: bool)
    requires p.Shape() && p.pathLen < 0x100 && ValidPathLen(p.pathLen)
    ensures looped == Looped(RouteOf(p), key, level, snr, identityReady)
  {
    if !identityReady {
      return false;
    }
    var stride := HashSize(p.pathLen);
    var hashSize := stride;
    if snr {
      if stride < 2 {
        return false;
      }
      hashSize := stride - 1;
    }
    ViewCount(p.pathLen, p.path[..]);
    var selfCount := CountVisits(p.path, key, stride, hashSize, HashCount(p.pathLen), p.path[..][..ByteLen(p.pathLen)]);
    looped := selfCount >= Maximums(level)[hashSize];
  }

  method CountVisits(path: array<u8>, key: Key, stride: nat, hashSize: nat, count: nat, ghost bytes: seq<u8>) returns (selfCount: nat)
    requires 0 < hashSize <= stride <= 32 && |bytes| <= path.Length && bytes == path[..|bytes|]
    requires |Chunks(bytes, stride)| == count
    ensures selfCount == Visits(Chunks(bytes, stride), Prefix(key, hashSize))
  {
    ghost var h := Prefix(key, hashSize);
    selfCount := 0;
    var left, at := count, 0;
    assert bytes[0..] == bytes;
    FromChunks(bytes, stride, h, 0);
    while left > 0
      invariant 0 <= at <= |bytes| && HopsFrom(bytes, stride, at) == left
      invariant selfCount + VisitsFrom(bytes, stride, h, at) == VisitsFrom(bytes, stride, h, 0)
    {
      var same := VisitAt(path, key, at, stride, hashSize, bytes);
      if same {
        selfCount := selfCount + 1;
      }
      left := left - 1;
      at := at + stride;
    }
  }

  /** Whether the hop at `at` starts with the node's hash. */
  method VisitAt(path: array<u8>, key: Key, at: nat, stride: nat, hashSize: nat, ghost bytes: seq<u8>) returns (same: bool)
    requires 0 < hashSize <= stride <= 32 && |bytes| <= path.Length && bytes == path[..|bytes|] && at + stride <= |bytes|
    ensures same <==> Prefix(key, hashSize) <= bytes[at..at + stride]
  {
    same := IsHashMatch(key, path, at, hashSize);
    SliceOfPrefix(path[..], |bytes|, at, at + hashSize);
    StartsWith(bytes, at, stride, Prefix(key, hashSize));
  }

  /** The hops, and the visits of h, from offset `at` on. */
  ghost function HopsFrom(bytes: seq<u8>, stride: nat, at: nat): nat
    requires stride > 0
    decreases |bytes| - at
  {
    if at + stride > |bytes| then 0 else 1 + HopsFrom(bytes, stride, at + stride)
  }

  ghost function VisitsFrom(bytes: seq<u8>, stride: nat, h: Hash, at: nat): nat
    requires stride > 0
    decreases |bytes| - at
  {
    if at + stride > |bytes| then 0
    else (if h <= bytes[at..at + stride] then 1 else 0) + VisitsFrom(bytes, stride, h, at + stride)
  }

  lemma StartsWith(bytes: seq<u8>, at: nat, stride: nat, h: Hash)
    requires |h| <= stride && at + stride <= |bytes|
    ensures h <= bytes[at..at + stride] <==> bytes[at..at + |h|] == h
  {
    assert bytes[at..at + stride][..|h|] == bytes[at..at + |h|];
  }

  lemma {:induction false} FromChunks(bytes: seq<u8>, stride: nat, h: Hash, at: nat)
    requires stride > 0 && at <= |bytes|
    ensures HopsFrom(bytes, stride, at) == |Chunks(bytes[at..], stride)|
    ensures VisitsFrom(bytes, stride, h, at) == Visits(Chunks(bytes[at..], stride), h)
    decreases |bytes| - at
  {
    if at + stride <= |bytes| {
      var rest := bytes[at..];
      assert rest[stride..] == bytes[at + stride..] && rest[..stride] == bytes[at..at + stride];
      assert Chunks(rest, stride)[1..] == Chunks(rest[stride..], stride);
      FromChunks(bytes, stride, h, at + stride);
    }
  }

  /** meshcore_runtime_protocol_allow_packet_forward */
  method AllowPacketForward(p: Packet, key: Key, policy: Policy, snr: bool) returns (allow: bool)
    requires p.Shape() && p.pathLen < 0x100 && ValidPathLen(p.pathLen)
    ensures allow == Allows(policy, IsFlood(p.header), RouteOf(p), key, snr)
  {
    ViewCount(p.pathLen, p.path[..]);
    if !policy.available {
      return false;
    }
    if policy.repeater {
      if policy.disableFwd {
        return false;
      }
      if IsFlood(p.header) {
        if HashCount(p.pathLen) >= policy.floodMax {
          return false;
        }
        if policy.level != Off {
          var looped := PacketIsLooped(p, key, policy.level, snr, policy.identityReady);
          if looped {
            return false;
          }
        }
      }
      return true;
    }
    allow := policy.clientRepeat;
  }

  predicate Allows(policy: Policy, flood: bool, r: Route, key: Key, snr: bool)
    requires 1 <= r.size <= 3
  {
    && policy.available
    && (if policy.repeater then
          && !policy.disableFwd
          && (flood ==> |r.hops| < policy.floodMax)
          && (flood && policy.level != Off ==> !Looped(r, key, policy.level, snr, policy.identityReady))
        else policy.clientRepeat)
  }

  // ---- every flood in a network of repeaters ----

  datatype Node = Node(key: Key, policy: Policy)

  /** The path after the nodes forwarded a fresh flood in this order; none if one refused. */
  function Relayed(size: nat, nodes: seq<Node>): (r: Option<Route>)
    requires 1 <= size <= 3
    ensures r.Some? ==> r.value.size == size
  {
    if nodes == [] then Some(Route(size, []))
    else
      var r, n := Relayed(size, nodes[..|nodes| - 1]), nodes[|nodes| - 1];
      if r.None? || !HasRoom(r.value) || !Allows(n.policy, true, r.value, n.key, false) then None
      else Some(Flooded(r.value, n.key))
  }

  /** Repeaters that know themselves and use one loop-detect level. */
  ghost predicate Uniform(nodes: seq<Node>, level: Level)
  {
    level != Off && forall i :: 0 <= i < |nodes| ==>
      nodes[i].policy.repeater && nodes[i].policy.level == level && nodes[i].policy.identityReady
  }

  ghost predicate Sized(hops: seq<Hash>, size: nat) { forall i :: 0 <= i < |hops| ==> |hops[i]| == size }

  lemma {:induction false} VisitsSnoc(hops: seq<Hash>, x: Hash, h: Hash)
    ensures Visits(hops + [x], h) == Visits(hops, h) + if h <= x then 1 else 0
  {
    if hops == [] {
      assert hops + [x] == [x];
    } else {
      assert (hops + [x])[1..] == hops[1..] + [x];
      VisitsSnoc(hops[1..], x, h);
    }
  }

  /** How often a hash of the given size may occur: 4, 2 and 1 times at the minimal level, 2, 1 and 1
      times at the moderate one, once at the strict one. */
  function Limit(level: Level, size: nat): nat
  {
    match level
    case Minimal => if size == 1 then 4 else if size == 2 then 2 else 1
    case Moderate => if size == 1 then 2 else 1
    case _ => 1
  }

  lemma {:induction false} TableIsLimit(level: Level, size: nat)
    requires 1 <= size <= 3
    ensures Maximums(level)[size] == Limit(level, size)
  {}

  /** No hop hash occurs more often than its level and size allow, whatever the flood limits: a count
      that wraps empties the path. */
  lemma {:induction false} VisitsBounded(nodes: seq<Node>, size: nat, level: Level, h: Hash)
    requires 1 <= size <= 3 && Uniform(nodes, level) && Relayed(size, nodes).Some? && |h| == size
    ensures var r := Relayed(size, nodes).value;
            Sized(r.hops, size) && Visits(r.hops, h) <= Limit(level, size)
  {
    TableIsLimit(level, size);
    if nodes != [] {
      var before, n := nodes[..|nodes| - 1], nodes[|nodes| - 1];
      VisitsBounded(before, size, level, h);
      VisitsSnoc(Relayed(size, before).value.hops, Prefix(n.key, size), h);
      if h <= Prefix(n.key, size) {
        assert h == Prefix(n.key, size);
      }
    }
  }

  lemma {:induction false} HopsShort(nodes: seq<Node>, size: nat)
    requires 1 <= size <= 3 && Relayed(size, nodes).Some?
    ensures |Relayed(size, nodes).value.hops| <= 63 && (size > 1 ==> |Relayed(size, nodes).value.hops| <= 32)
  {
    if nodes != [] { HopsShort(nodes[..|nodes| - 1], size); }
  }

  /** A relay by a repeater makes the path one hop longer, within that repeater's limit, exactly unless
      63 one-byte hops are recorded already; a limit of at most 63 excludes that. */
  lemma {:induction false} HopsGrow(nodes: seq<Node>, size: nat)
    requires 1 <= size <= 3 && Relayed(size, nodes).Some? && nodes != [] && nodes[|nodes| - 1].policy.repeater
    ensures Relayed(size, nodes[..|nodes| - 1]).Some?
    ensures var before, after := |Relayed(size, nodes[..|nodes| - 1]).value.hops|, |Relayed(size, nodes).value.hops|;
            var limit := nodes[|nodes| - 1].policy.floodMax;
            && (after == before + 1 <==> !(size == 1 && before == 63))
            && after <= limit
            && (size > 1 || limit <= 63 ==> after == before + 1)
  {
    HopsShort(nodes[..|nodes| - 1], size);
  }

  /** Hence the hop count is a termination measure: without one-byte limits above 63 every relay is
      recorded, and their number is at most the last repeater's limit. */
  lemma {:induction false} EveryRelayRecorded(nodes: seq<Node>, size: nat)
    requires 1 <= size <= 3 && Relayed(size, nodes).Some?
    requires forall i :: 0 <= i < |nodes| ==> nodes[i].policy.repeater && (size == 1 ==> nodes[i].policy.floodMax <= 63)
    ensures |Relayed(size, nodes).value.hops| == |nodes|
    ensures nodes != [] ==> |nodes| <= nodes[|nodes| - 1].policy.floodMax
  {
    if nodes != [] {
      EveryRelayRecorded(nodes[..|nodes| - 1], size);
      HopsGrow(nodes, size);
    }
  }

  lemma {:induction false} VisitsTwice(hops: seq<Hash>, i: nat, j: nat)
    requires i < j < |hops| && hops[i] == hops[j]
    ensures Visits(hops, hops[i]) >= 2
  {
    if i > 0 {
      VisitsTwice(hops[1..], i - 1, j - 1);
    } else {
      VisitsOnce(hops[1..], j - 1);
    }
  }

  lemma {:induction false} VisitsOnce(hops: seq<Hash>, j: nat)
    requires j < |hops|
    ensures Visits(hops, hops[j]) >= 1
  {
    if j > 0 { VisitsOnce(hops[1..], j - 1); }
  }

  /** With strict loop detection no hop hash occurs twice in a recorded path. */
  lemma {:induction false} StrictHopsDistinct(nodes: seq<Node>, size: nat, i: nat, j: nat)
    requires 1 <= size <= 3 && Uniform(nodes, Strict) && Relayed(size, nodes).Some?
    requires i < j < |Relayed(size, nodes).value.hops|
    ensures Relayed(size, nodes).value.hops[i] != Relayed(size, nodes).value.hops[j]
  {
    var hops := Relayed(size, nodes).value.hops;
    VisitsBounded(nodes, size, Strict, seq(size, _ => 0));
    VisitsBounded(nodes, size, Strict, hops[i]);
    if hops[i] == hops[j] { VisitsTwice(hops, i, j); }
  }

  // ---- when a repeater does forward ----

  /** Where h occurs. */
  ghost function Places(hops: seq<Hash>, h: Hash): set<nat>
  {
    set i: nat | i < |hops| && h <= hops[i]
  }

  lemma {:induction false} VisitsIsCount(hops: seq<Hash>, h: Hash)
    ensures Visits(hops, h) == |Places(hops, h)|
  {
    if hops == [] {
      assert Places(hops, h) == {};
    } else {
      var k := |hops| - 1;
      var front, last := hops[..k], hops[k];
      assert hops == front + [last];
      VisitsSnoc(front, last, h);
      VisitsIsCount(front, h);
      assert Places(hops, h) == Places(front, h) + if h <= last then {k} else {};
    }
  }

  /** A forwarding repeater that knows itself passes a flood on exactly when there is room for its hash,
      the path is below its flood limit, and it is not on the path as often as its level allows. */
  lemma {:induction false} ForwardsIff(nodes: seq<Node>, n: Node, size: nat)
    requires 1 <= size <= 3 && Relayed(size, nodes).Some?
    requires n.policy.available && n.policy.repeater && !n.policy.disableFwd && n.policy.identityReady
    ensures var hops := Relayed(size, nodes).value.hops;
            Relayed(size, nodes + [n]).Some? <==>
            && (|hops| + 1) * size <= 64 && |hops| < n.policy.floodMax
            && (n.policy.level == Off || |Places(hops, Prefix(n.key, size))| < Limit(n.policy.level, size))
  {
    assert (nodes + [n])[..|nodes + [n]| - 1] == nodes;
    TableIsLimit(n.policy.level, size);
    VisitsIsCount(Relayed(size, nodes).value.hops, Prefix(n.key, size));
  }

  /** The remaining gates: no policy, forwarding switched off, and clients, which repeat only when asked to. */
  lemma {:induction false} PolicyGates(policy: Policy, flood: bool, r: Route, key: Key, snr: bool)
    requires 1 <= r.size <= 3
    ensures !policy.available || (policy.repeater && policy.disableFwd) ==> !Allows(policy, flood, r, key, snr)
    ensures policy.available && !policy.repeater ==> (Allows(policy, flood, r, key, snr) <==> policy.clientRepeat)
    ensures policy.available && policy.repeater && !policy.disableFwd && !flood ==> Allows(policy, flood, r, key, snr)
  {}
}
