/** Path tracing: a request lists an odd number of hops, every hop adds the SNR it heard, and the
    collected SNRs are split into the way out and the way back. */
module Trace {
  import opened Words
  import opened Clock32
  import opened WireSpec
  import opened WireCodec
  import opened RoutingSpec
  import opened Routing

  /** The byte an int8_t is stored as, and back. */
  function SnrByte(q: i8): u8 { q % 0x100 }
  function SnrOf(b: u8): i8 { if b < 128 then b else b - 0x100 }

  function SnrBytes(qs: seq<i8>): (bs: seq<u8>)
    ensures |bs| == |qs| && forall i :: 0 <= i < |qs| ==> bs[i] == SnrByte(qs[i])
  {
    seq(|qs|, i requires 0 <= i < |qs| => SnrByte(qs[i]))
  }

  function Snrs(bs: seq<u8>): (qs: seq<i8>)
    ensures |qs| == |bs| && forall i :: 0 <= i < |bs| ==> qs[i] == SnrOf(bs[i])
  {
    seq(|bs|, i requires 0 <= i < |bs| => SnrOf(bs[i]))
  }

  // ---- the request ----

  /** meshcore_runtime_request_validate_node_trace */
  predicate ValidRequest(path: seq<u8>, size: nat)
  {
    0 < |path| <= MAX_PATH && 1 <= size <= 3 && |path| % size == 0 && |path| / size % 2 == 1
  }

  /** Three-byte hashes are traced by their first two bytes. */
  function TraceSize(size: nat): nat { if size == 3 then 2 else size }

  ghost predicate Narrows(path: seq<u8>, size: nat, out: seq<u8>, n: nat)
    requires 1 <= size <= 3
  {
    && |path| >= n * size && |out| == n * TraceSize(size)
    && forall i :: 0 <= i < n ==> HopBytes(out, i, TraceSize(size), TraceSize(size)) == HopBytes(path, i, size, TraceSize(size))
  }

  /** The first w bytes of hop i in a path of hops of the given size. */
  function HopBytes(path: seq<u8>, i: nat, size: nat, w: nat): seq<u8>
  {
    if i * size + w <= |path| then path[i * size..i * size + w] else []
  }

  /** The path part of meshcore_runtime_request_execute_node_trace_path */
  method TracePath(path: seq<u8>, size: nat) returns (r: Option<(seq<u8>, u8)>)
    ensures r.Some? <==> ValidRequest(path, size)
    ensures r.Some? ==> r.value.1 == TraceSize(size) - 1 && Narrows(path, size, r.value.0, |path| / size)
    ensures r.Some? ==> |r.value.0| <= MAX_PATH
  {
    if |path| == 0 || |path| > MAX_PATH || size == 0 || size > 3 || |path| % size != 0 {
      return None;
    }
    var hopCount := |path| / size;
    if hopCount % 2 == 0 {
      return None;
    }
    var w := TraceSize(size);
    if size == w {
      return Some((path, w - 1));
    }
    var out := [];
    for hop := 0 to hopCount
      invariant Narrows(path, 3, out, hop)
    {
      var next := out + path[hop * 3..hop * 3 + 2];
      forall i | 0 <= i < hop + 1
        ensures HopBytes(next, i, 2, 2) == HopBytes(path, i, 3, 2)
      {
        if i < hop { assert HopBytes(next, i, 2, 2) == HopBytes(out, i, 2, 2); }
      }
      out := next;
    }
    r := Some((out, 1));
  }

  // ---- one hop ----

  /** The trace as it travels: flags, the listed hashes, the SNR bytes collected so far. */
  datatype Wire = Wire(flags: u8, hashes: seq<u8>, snrs: seq<u8>)

  datatype Outcome = Complete | Forward | Drop

  function Width(flags: u8): nat { if flags % 4 == 0 then 1 else if flags % 4 == 1 then 2 else if flags % 4 == 2 then 4 else 8 }

  /** The bytes compared with the node's key; `beyond` is what memory holds behind the listed hashes. */
  function Listed(w: Wire, beyond: seq<u8>): seq<u8>
  {
    HopBytes(w.hashes + beyond, |w.snrs|, Width(w.flags), Width(w.flags))
  }

  /** The trace branch of meshcore_mesh_on_recv_packet; a trace with 64 SNRs goes nowhere. */
  function Verdict(w: Wire, beyond: seq<u8>, key: Key, allowed: bool, seen: bool): Outcome
  {
    if |w.snrs| >= MAX_PATH then Drop
    else if |w.snrs| * Width(w.flags) >= |w.hashes| then Complete
    else if Listed(w, beyond) == Prefix(key, Width(w.flags)) && allowed && !seen then Forward
    else Drop
  }

  /** Hashes of 1 << (flags & 3) bytes. */
  lemma {:induction false} WidthIsPower(flags: u8)
    ensures Width(flags) == Pow(2, flags % 4)
  {
    assert Pow(2, 3) == 2 * Pow(2, 2) && Pow(2, 2) == 2 * Pow(2, 1) && Pow(2, 1) == 2 * Pow(2, 0);
  }

  /** A trace goes on exactly when it has room for an SNR, hashes left, the next of them is this node's,
      byte for byte, and the node may forward a packet it has not seen. It is complete exactly when every
      listed hash has an SNR, whoever holds it. */
  lemma {:induction false} VerdictIff(w: Wire, beyond: seq<u8>, key: Key, allowed: bool, seen: bool)
    ensures var width, n, memory := Width(w.flags), |w.snrs|, w.hashes + beyond;
            && (Verdict(w, beyond, key, allowed, seen) == Forward <==>
                && allowed && !seen && n < 64 && n * width < |w.hashes| && n * width + width <= |memory|
                && forall i :: 0 <= i < width ==> memory[n * width + i] == key[i])
            && (Verdict(w, beyond, key, allowed, seen) == Complete <==> n < 64 && n * width >= |w.hashes|)
  {
    var width, n, memory := Width(w.flags), |w.snrs|, w.hashes + beyond;
    SameBytes(memory, key, n * width, width);
  }

  lemma SameBytes(memory: seq<u8>, key: Key, at: nat, width: nat)
    requires 1 <= width <= 8
    ensures at + width <= |memory| ==>
              (memory[at..at + width] == Prefix(key, width) <==> forall i :: 0 <= i < width ==> memory[at + i] == key[i])
    ensures at + width > |memory| ==> [] != Prefix(key, width)
  {
    if at + width <= |memory| && memory[at..at + width] == Prefix(key, width) {
      forall i | 0 <= i < width
        ensures memory[at + i] == key[i]
      {
        assert memory[at..at + width][i] == Prefix(key, width)[i];
      }
    }
  }

  const HEAD: nat := 9

  ghost predicate IsTrace(p: Packet)
    requires p.Shape()
    reads p
  {
    HEAD <= p.payloadLen <= MAX_PAYLOAD && p.pathLen <= MAX_PATH
  }

  ghost function WireOf(p: Packet): Wire
    requires p.Shape() && IsTrace(p)
    reads p, p.path, p.payload
  {
    Wire(p.payload[8], p.payload[HEAD..p.payloadLen], p.path[..p.pathLen])
  }

  /** A hop's bytes end at most one byte behind the payload buffer, where the struct keeps the SNR. */
  lemma HopInMemory(snrs: nat, flags: u8, len: nat)
    requires snrs * Width(flags) < len <= MAX_PAYLOAD - HEAD && snrs < MAX_PATH
    ensures HEAD + snrs * Width(flags) + Width(flags) <= MAX_PAYLOAD + 1
  {}

  /** Exactly when that byte is read: four-byte hashes after 43 SNRs, or eight-byte hashes after 21. */
  lemma HopBehindPayload(snrs: nat, flags: u8, len: nat)
    requires snrs * Width(flags) < len <= MAX_PAYLOAD - HEAD && snrs < MAX_PATH
    ensures HEAD + snrs * Width(flags) + Width(flags) > MAX_PAYLOAD <==>
            (flags % 4 == 2 && snrs == 43) || (flags % 4 == 3 && snrs == 21)
  {}

  /** A frame the dispatcher accepts that reaches it: a full payload of four-byte hashes, 43 SNRs. */
  lemma BehindPayloadReached()
    ensures var f := Frame(TRACE_HEADER, [], 43, Zeros(43), Zeros(8) + [2] + Zeros(175));
            && Parse(Encode(f)) == Some(f) && PayloadType(f.header) == 9 && !IsFlood(f.header)
            && 43 * Width(f.payload[8]) < |f.payload| - HEAD && HEAD + 43 * Width(f.payload[8]) + Width(f.payload[8]) > MAX_PAYLOAD
  {
    var f := Frame(TRACE_HEADER, [], 43, Zeros(43), Zeros(8) + [2] + Zeros(175));
    ParseIff(Encode(f), f);
  }

  const TRACE_HEADER: u8 := 38

  /** Compares the key with bytes of the payload buffer, the last of which may be the SNR field. */
  method MatchListed(p: Packet, key: Key, at: nat, w: nat, snrField: u8) returns (same: bool)
    requires p.Shape() && w <= 8 && HEAD <= at && at + w <= MAX_PAYLOAD + 1
    ensures same == ((p.payload[..] + [snrField])[at..at + w] == Prefix(key, w))
  {
    ghost var memory := p.payload[..] + [snrField];
    for i := 0 to w
      invariant memory[at..at + i] == key[..i]
    {
      var b := if at + i < MAX_PAYLOAD then p.payload[at + i] else snrField;
      assert b == memory[at + i];
      if b != key[i] {
        assert memory[at..at + w][i] != key[..w][i];
        return false;
      }
      assert memory[at..at + (i + 1)] == memory[at..at + i] + [b];
    }
    same := true;
  }

  /** Room for an SNR, hashes left, and the next one, in the payload buffer, is this node's. */
  ghost predicate IsNextListed(p: Packet, key: Key, snrField: u8)
    requires p.Shape()
    reads p, p.payload
  {
    var at, width := 9 + p.pathLen * Width(p.payload[8]), Width(p.payload[8]);
    && p.pathLen < 64 && at < p.payloadLen && at + width <= MAX_PAYLOAD + 1
    && (p.payload[..] + [snrField])[at..at + width] == Prefix(key, width)
  }

  method ReceiveTrace(p: Packet, key: Key, snr: i8, allowed: bool, seen: bool) returns (o: Outcome)
    requires p.Shape() && p.payloadLen <= MAX_PAYLOAD
    modifies p`pathLen, p.path
    ensures !old(IsTrace(p)) ==> o == Drop && p.pathLen == old(p.pathLen) && p.path[..] == old(p.path[..])
    ensures old(IsTrace(p)) ==>
              && IsTrace(p)
              && o == Verdict(old(WireOf(p)), old(p.payload[p.payloadLen..]) + [SnrByte(snr)], key, allowed, seen)
              && WireOf(p) == if o == Forward then old(WireOf(p)).(snrs := old(WireOf(p)).snrs + [SnrByte(snr)]) else old(WireOf(p))
    ensures o == Forward <==> old(IsNextListed(p, key, SnrByte(snr))) && allowed && !seen
    ensures p.pathLen == old(p.pathLen) + (if old(IsNextListed(p, key, SnrByte(snr))) && allowed && !seen then 1 else 0)
  {
    if p.pathLen >= MAX_PATH || p.payloadLen < HEAD {
      return Drop;
    }
    var flags := p.payload[8];
    var len := p.payloadLen - HEAD;
    var offset := p.pathLen * Width(flags);
    if offset >= len {
      return Complete;
    }
    HopInMemory(p.pathLen, flags, len);
    var same := MatchListed(p, key, HEAD + offset, Width(flags), SnrByte(snr));
    MemoryView(p.payload[..], p.payloadLen, SnrByte(snr), HEAD + offset, Width(flags));
    if !same || !allowed || seen {
      return Drop;
    }
    p.path[p.pathLen] := SnrByte(snr);
    p.pathLen := p.pathLen + 1;
    o := Forward;
  }

  lemma MemoryView(payload: seq<u8>, n: nat, x: u8, at: nat, w: nat)
    requires HEAD <= at && HEAD <= n <= |payload| && at + w <= |payload| + 1
    ensures (payload[HEAD..n] + (payload[n..] + [x]))[at - HEAD..at - HEAD + w] == (payload + [x])[at..at + w]
  {
    assert payload[HEAD..n] + (payload[n..] + [x]) == (payload + [x])[HEAD..];
  }

  // ---- the way there and back ----

  /** A node on the way: its key, the SNR it hears the trace with, and its buffer's stale bytes. */
  datatype Hop = Hop(key: Key, snr: i8, beyond: seq<u8>)

  /** The trace after the hops forwarded it in this order; none if one did not. */
  function Travel(w: Wire, hops: seq<Hop>): Option<Wire>
  {
    if hops == [] then Some(w)
    else
      var w1, h := Travel(w, hops[..|hops| - 1]), hops[|hops| - 1];
      if w1.None? || Verdict(w1.value, h.beyond, h.key, true, false) != Forward then None
      else Some(w1.value.(snrs := w1.value.snrs + [SnrByte(h.snr)]))
  }

  function HopSnrs(hops: seq<Hop>): (qs: seq<i8>)
    ensures |qs| == |hops| && forall i :: 0 <= i < |hops| ==> qs[i] == hops[i].snr
  {
    seq(|hops|, i requires 0 <= i < |hops| => hops[i].snr)
  }

  /** The single pending trace request. */
  datatype Slot = Idle | Pending(tag: u32, expires: u32)

  class PendingTrace {
    var slot: Slot

    constructor ()
      ensures slot == Idle
    {
      slot := Idle;
    }

    /** meshcore_runtime_pending_trace_register: a new request replaces the pending one */
    method Register(tag: u32, now: u32)
      modifies this
      ensures slot == Pending(tag, Later(now, 10000))
    {
      slot := Pending(tag, Later(now, 10000));
    }

    /** meshcore_runtime_pending_trace_handle: a trace with another tag changes nothing; the pending
        tag is answered at most once, with the SNRs out and back or, if inconsistent, not at all. */
    method Handle(tag: u32, flags: u8, snrs: seq<u8>, count: nat, hashBytes: nat, response: i8)
      returns (r: Option<(seq<i8>, seq<i8>)>)
      requires count <= |snrs| && count < MAX_PATH
      modifies this
      ensures r.Some? <==> old(slot).Pending? && old(slot).tag == tag && Accepted(flags, count, hashBytes)
      ensures r.Some? ==> r.value == SplitSnrs(Snrs(snrs[..count]), response)
      ensures slot == if old(slot).Pending? && old(slot).tag == tag then Idle else old(slot)
    {
      if !slot.Pending? || slot.tag != tag {
        return None;
      }
      r := SplitTrace(flags, snrs, count, hashBytes, response);
      slot := Idle;
    }
  }

  method SplitTrace(flags: u8, snrs: seq<u8>, count: nat, hashBytes: nat, response: i8)
    returns (r: Option<(seq<i8>, seq<i8>)>)
    requires count <= |snrs| && count < MAX_PATH
    ensures r.Some? <==> Accepted(flags, count, hashBytes)
    ensures r.Some? ==> r.value == SplitSnrs(Snrs(snrs[..count]), response)
  {
    var hashSize := Width(flags);
    if hashSize == 4 || hashBytes == 0 || hashBytes % hashSize != 0 {
      return None;
    }
    var hashCount := hashBytes / hashSize;
    if count != hashCount || hashCount % 2 == 0 {
      return None;
    }
    var forwardHops := (hashCount - 1) / 2;
    assert count == 2 * forwardHops + 1;
    var outSnrs := ReadSnrs(snrs, 0, forwardHops);
    outSnrs := outSnrs + [SnrOf(snrs[forwardHops])];
    var back := ReadSnrs(snrs, forwardHops + 1, forwardHops);
    back := back + [response];
    ghost var qs := Snrs(snrs[..count]);
    assert (count + 1) / 2 == forwardHops + 1;
    assert outSnrs == qs[..forwardHops + 1];
    assert back == qs[forwardHops + 1..] + [response];
    r := Some((outSnrs, back));
  }

  /** memcpy of n bytes into an int8_t array */
  method ReadSnrs(snrs: seq<u8>, from: nat, n: nat) returns (qs: seq<i8>)
    requires from + n <= |snrs|
    ensures qs == Snrs(snrs[from..from + n])
  {
    qs := [];
    for i := 0 to n
      invariant qs == Snrs(snrs[from..from + i])
    {
      qs := qs + [SnrOf(snrs[from + i])];
    }
  }

  predicate Accepted(flags: u8, count: nat, hashBytes: nat)
  {
    Width(flags) != 4 && hashBytes > 0 && hashBytes % Width(flags) == 0 && count == hashBytes / Width(flags) && count % 2 == 1
  }

  /** One SNR for each of an odd number of hashes, and no four-byte hashes. */
  lemma {:induction false} AcceptedIff(flags: u8, count: nat, hashBytes: nat)
    ensures Accepted(flags, count, hashBytes) <==> flags % 4 != 2 && count % 2 == 1 && hashBytes == count * Pow(2, flags % 4)
  {
    WidthIsPower(flags);
    var w := Width(flags);
    if hashBytes == count * w {
      DivModUnique(hashBytes, count, 0, w);
    }
  }

  /** The first half, with the middle, is the way out; the rest and the response the way back. */
  function SplitSnrs(qs: seq<i8>, response: i8): (seq<i8>, seq<i8>)
  {
    var m := (|qs| + 1) / 2;
    (qs[..m], qs[m..] + [response])
  }

  // ---- end to end ----

  lemma MulLess(i: nat, n: nat, w: nat)
    requires i < n && w > 0
    ensures i * w + w <= n * w
  {
    MulMono(i + 1, n, w);
    Distrib(w, i, 1);
  }

  /** Every node on the way owns the hash its hop was requested with. */
  ghost predicate OnPath(path: seq<u8>, size: nat, hops: seq<Hop>)
  {
    forall i :: 0 <= i < |hops| ==> Prefix(hops[i].key, size) == HopBytes(path, i, size, size)
  }

  /** A listed hop recognises itself, whatever its buffer holds behind the hashes. */
  lemma {:induction false} HopRecognised(path: seq<u8>, size: nat, out: seq<u8>, n: nat, w: Wire, h: Hop)
    requires 1 <= size <= 3 && Narrows(path, size, out, n) && |w.snrs| < n && w.hashes == out && w.flags == TraceSize(size) - 1
    requires Prefix(h.key, size) == HopBytes(path, |w.snrs|, size, size)
    ensures Listed(w, h.beyond) == Prefix(h.key, TraceSize(size))
  {
    var i, ts := |w.snrs|, TraceSize(size);
    MulLess(i, n, size);
    MulLess(i, n, ts);
    assert HopBytes(out, i, ts, ts) == HopBytes(path, i, size, ts);
    SameHop(path, out, h.beyond, h.key, i * size, i * ts, size, ts);
  }

  /** Bytes at b of the narrowed path are the start of the hash at a, so they match the same key. */
  lemma SameHop(path: seq<u8>, out: seq<u8>, beyond: seq<u8>, key: Key, a: nat, b: nat, size: nat, w: nat)
    requires w <= size <= 32 && a + size <= |path| && b + w <= |out|
    requires out[b..b + w] == path[a..a + w] && Prefix(key, size) == path[a..a + size]
    ensures (out + beyond)[b..b + w] == Prefix(key, w)
  {
    FirstOf(out + beyond, out, b, w);
    NarrowOf(path, a, size, w);
    assert Prefix(key, size)[..w] == Prefix(key, w);
  }

  lemma FirstOf(whole: seq<u8>, out: seq<u8>, a: nat, w: nat)
    requires out <= whole && a + w <= |out|
    ensures whole[a..a + w] == out[a..a + w]
  {}

  lemma NarrowOf(path: seq<u8>, a: nat, size: nat, w: nat)
    requires w <= size && a + size <= |path|
    ensures path[a..a + size][..w] == path[a..a + w]
  {}

  /** The next listed hop forwards the trace. */
  lemma {:induction false} HopForwards(path: seq<u8>, size: nat, out: seq<u8>, n: nat, w: Wire, h: Hop)
    requires 1 <= size <= 3 && Narrows(path, size, out, n) && n < MAX_PATH && |w.snrs| < n
    requires w.hashes == out && w.flags == TraceSize(size) - 1
    requires Prefix(h.key, size) == HopBytes(path, |w.snrs|, size, size)
    ensures Verdict(w, h.beyond, h.key, true, false) == Forward
  {
    HopRecognised(path, size, out, n, w, h);
    MulLess(|w.snrs|, n, TraceSize(size));
  }

  lemma SnrBytesSnoc(hops: seq<Hop>, k: nat)
    requires k + 1 == |hops|
    ensures SnrBytes(HopSnrs(hops)) == SnrBytes(HopSnrs(hops[..k])) + [SnrByte(hops[k].snr)]
  {}

  /** Each of the first k hops forwards and adds its own SNR. */
  lemma {:induction false} TravelCollects(path: seq<u8>, size: nat, out: seq<u8>, n: nat, hops: seq<Hop>)
    requires 1 <= size <= 3 && Narrows(path, size, out, n) && n < MAX_PATH && |hops| <= n && OnPath(path, size, hops)
    ensures Travel(Wire(TraceSize(size) - 1, out, []), hops) == Some(Wire(TraceSize(size) - 1, out, SnrBytes(HopSnrs(hops))))
    decreases |hops|
  {
    if hops != [] {
      var k := |hops| - 1;
      TravelCollects(path, size, out, n, hops[..k]);
      assert Prefix(hops[k].key, size) == HopBytes(path, k, size, size);
      HopForwards(path, size, out, n, Wire(TraceSize(size) - 1, out, SnrBytes(HopSnrs(hops[..k]))), hops[k]);
      SnrBytesSnoc(hops, k);
    }
  }

  lemma SnrRoundTrip(qs: seq<i8>)
    ensures Snrs(SnrBytes(qs)) == qs
  {}

  lemma OddHops(len: nat, size: nat)
    requires 0 < len <= MAX_PATH && 1 <= size <= 3 && len % size == 0 && len / size % 2 == 1
    ensures len == len / size * size && len / size < MAX_PATH
  {}

  /** A trace over an accepted path of n hops is forwarded by each listed hop and complete after
      exactly n of them; what is published is the first (n+1)/2 SNRs out and the others, with the
      response's own, back. */
  lemma {:induction false} TraceEndToEnd(path: seq<u8>, size: nat, out: seq<u8>, hops: seq<Hop>, last: Hop, response: i8)
    requires ValidRequest(path, size) && Narrows(path, size, out, |path| / size)
    requires |hops| == |path| / size && OnPath(path, size, hops)
    ensures var n, start := |hops|, Wire(TraceSize(size) - 1, out, []);
            var w := Travel(start, hops);
            && w == Some(start.(snrs := SnrBytes(HopSnrs(hops))))
            && Verdict(w.value, last.beyond, last.key, true, false) == Complete
            && Accepted(w.value.flags, |w.value.snrs|, |out|)
            && SplitSnrs(Snrs(w.value.snrs), response)
               == (HopSnrs(hops)[..(n + 1) / 2], HopSnrs(hops)[(n + 1) / 2..] + [response])
  {
    var n := |hops|;
    OddHops(|path|, size);
    TravelCollects(path, size, out, n, hops);
    SnrRoundTrip(HopSnrs(hops));
    FullTrace(Wire(TraceSize(size) - 1, out, SnrBytes(HopSnrs(hops))), TraceSize(size), last);
  }

  /** With one SNR per listed hash the trace is complete and its split is accepted. */
  lemma FullTrace(w: Wire, ts: nat, last: Hop)
    requires 1 <= ts <= 2 && w.flags == ts - 1 && |w.hashes| == |w.snrs| * ts && |w.snrs| < MAX_PATH && |w.snrs| % 2 == 1
    ensures Verdict(w, last.beyond, last.key, true, false) == Complete && Accepted(w.flags, |w.snrs|, |w.hashes|)
  {
    DivModUnique(|w.hashes|, |w.snrs|, 0, ts);
  }

  /** No listed hop sees the trace complete before all n have forwarded it. */
  lemma {:induction false} NotCompleteBefore(path: seq<u8>, size: nat, out: seq<u8>, hops: seq<Hop>, any: Hop)
    requires ValidRequest(path, size) && Narrows(path, size, out, |path| / size)
    requires |hops| < |path| / size && OnPath(path, size, hops)
    ensures var w := Travel(Wire(TraceSize(size) - 1, out, []), hops);
            w.Some? && |w.value.snrs| == |hops| && Verdict(w.value, any.beyond, any.key, true, false) != Complete
  {
    var n, ts := |path| / size, TraceSize(size);
    OddHops(|path|, size);
    TravelCollects(path, size, out, n, hops);
    Unfinished(Wire(ts - 1, out, SnrBytes(HopSnrs(hops))), n, ts, any);
  }

  lemma Unfinished(w: Wire, n: nat, ts: nat, any: Hop)
    requires 1 <= ts <= 2 && w.flags == ts - 1 && |w.hashes| == n * ts && |w.snrs| < n
    ensures Verdict(w, any.beyond, any.key, true, false) != Complete
  {
    MulLess(|w.snrs|, n, ts);
  }
}
