/** A text message and its acknowledgement, end to end: the CRC the sender registers is the one the
    receiver computes from the decrypted, padded datagram, and it comes back directly, in a
    multi-acknowledgement or inside a PATH reply. */
module MessageAcks {
  import opened Words
  import opened Clock32
  import opened WireSpec
  import opened Cipher
  import opened PendingAcks

  const MAX_TEXT: nat := 160
  const ACK_TYPE: u8 := 3

  /** meshcore_runtime_request_validate_message_send_to_node */
  predicate Legal(text: seq<u8>, attempt: u8)
  {
    0 < |text| <= MAX_TEXT && (attempt > 3 ==> |text| <= MAX_TEXT - 2)
  }

  /** Timestamp, attempt bits and text: what the sender hashes together with its public key. */
  function Head(stamp: seq<u8>, attempt: u8, text: seq<u8>): seq<u8> { stamp + [attempt % 4] + text }

  /** The datagram: later attempts add a zero and the attempt number. */
  function Datagram(stamp: seq<u8>, attempt: u8, text: seq<u8>): seq<u8>
  {
    Head(stamp, attempt, text) + (if attempt > 3 then [0, attempt] else [])
  }

  /** Four bytes as the machine reads them into a uint32_t. */
  function Crc(b: seq<u8>): u32
    requires |b| >= 4
  {
    var b0: int, b1: int, b2: int, b3: int := b[0], b[1], b[2], b[3];
    b0 + 0x100 * b1 + 0x1_0000 * b2 + 0x100_0000 * b3
  }

  /** The sending half of meshcore_runtime_request_execute_message_send_to_node: the sealed datagram,
      written behind the two destination hashes, and the CRC that is registered; none for an over-long
      later attempt and when sealing fails. */
  method SendText(c: Crypto, key: seq<u8>, self: seq<u8>, stamp: seq<u8>, attempt: u8, text: seq<u8>, payload: array<u8>,
                  good: nat, hmacWorks: bool) returns (r: Option<(nat, u32)>)
    requires Sound(c) && |stamp| == 4 && payload.Length == MAX_PAYLOAD && |text| <= MAX_TEXT
    modifies payload
    ensures r.Some? <==> !(attempt > 3 && |text| > MAX_TEXT - 2)
                         && |Padded(Datagram(stamp, attempt, text))| <= BLOCK * good && hmacWorks
    ensures r.Some? ==> 2 <= r.value.0 <= MAX_PAYLOAD && payload[2..r.value.0] == Sealed(c, key, Datagram(stamp, attempt, text))
    ensures r.Some? ==> r.value.1 == Crc(c.hash(Head(stamp, attempt, text) + self))
  {
    if attempt > 3 && |text| > MAX_TEXT - 2 {
      return None;
    }
    var data := stamp + [attempt % 4] + text;
    var crc := Crc(c.hash(data + self));
    if attempt > 3 {
      data := data + [0, attempt];
    }
    assert data == Datagram(stamp, attempt, text);
    PaddedShape(data);
    var n := EncryptThenMac(c, key, payload, 2, data, good, hmacWorks);
    if n.None? {
      return None;
    }
    r := Some((2 + n.value, crc));
  }

  // ---- the receiver ----

  /** memchr(s, 0, |s|), or the length when there is no zero byte */
  function FirstZero(s: seq<u8>): (n: nat)
    ensures n <= |s| && (n < |s| ==> s[n] == 0) && forall i :: 0 <= i < n ==> s[i] != 0
  {
    if s == [] || s[0] == 0 then 0 else 1 + FirstZero(s[1..])
  }

  /** What the receiver of a plain text hashes in front of the sender's key. */
  function Hashed(data: seq<u8>): seq<u8>
    requires |data| > 5
  {
    data[..5 + FirstZero(data[5..])]
  }

  /** The byte behind the text and its terminator, or zero. */
  function BehindText(data: seq<u8>): u8
    requires |data| > 5
  {
    var end := 5 + FirstZero(data[5..]);
    if end + 1 < |data| then data[end + 1] else 0
  }

  method TextLength(data: seq<u8>, from: nat) returns (n: nat)
    requires from <= |data|
    ensures n == FirstZero(data[from..])
  {
    n := 0;
    assert data[from + 0..] == data[from..];
    while from + n < |data| && data[from + n] != 0
      invariant from + n <= |data| && n + FirstZero(data[from + n..]) == FirstZero(data[from..])
    {
      assert data[from + n..][1..] == data[from + n + 1..];
      n := n + 1;
    }
  }

  /** The text branch of meshcore_runtime_on_peer_data_recv_internal and
      meshcore_runtime_handle_text_follow_up, for a chat node: the six- or four-byte acknowledgement. */
  method TextAck(c: Crypto, data: seq<u8>, peer: seq<u8>, self: seq<u8>, selfReady: bool, random: u8) returns (ack: Option<seq<u8>>)
    requires Sound(c)
    ensures |data| > 5 && data[4] / 4 == 0 ==> ack.Some? && |ack.value| == 6 && ack.value[..4] == c.hash(Hashed(data) + peer)
    ensures |data| > 5 && data[4] / 4 == 0 ==> ack.Some? && |ack.value| == 6 && ack.value[4] == BehindText(data) && ack.value[5] == random
    ensures |data| > 9 && data[4] / 4 == 2 && selfReady ==>
              ack == Some(c.hash(data[..9 + FirstZero(data[9..])] + self))
    ensures |data| <= 5 || (data[4] / 4 == 2 && (|data| <= 9 || !selfReady)) || data[4] / 4 !in {0, 2} ==> ack == None
  {
    if |data| <= 5 {
      return None;
    }
    var flags, off := data[4] / 4, 5;
    if flags == 2 {
      if |data| <= 9 || !selfReady {
        return None;
      }
      off := 9;
    } else if flags != 0 {
      return None;
    }
    var n := TextLength(data, off);
    var end := off + n;
    if flags == 0 {
      var extra := if end + 1 < |data| then data[end + 1] else 0;
      ack := Some(c.hash(data[..end] + peer) + [extra, random]);
    } else {
      ack := Some(c.hash(data[..end] + self));
    }
  }

  /** The receiver hashes exactly what the sender hashed if and only if the text has no zero byte. */
  lemma {:induction false} SameBytesHashed(stamp: seq<u8>, attempt: u8, text: seq<u8>)
    requires |stamp| == 4 && Legal(text, attempt)
    ensures var data := Padded(Datagram(stamp, attempt, text));
            && |data| > 5 && data[4] / 4 == 0
            && (Hashed(data) == Head(stamp, attempt, text) <==> 0 !in text)
  {
    var d, n := Datagram(stamp, attempt, text), |text|;
    var data := Padded(d);
    PaddedShape(d);
    assert data[4] == d[4] == attempt % 4;
    assert data[..|d|] == d;
    var tail := data[5..];
    forall i | 0 <= i < n
      ensures tail[i] == text[i]
    {
      assert tail[i] == data[5 + i] == d[5 + i];
    }
    assert n < |tail| ==> tail[n] == 0 by {
      if n < |tail| && attempt > 3 { assert tail[n] == data[5 + n] == d[5 + n]; }
    }
    if 0 !in text {
      assert FirstZero(tail) == n;
      assert data[..5 + n] == d[..5 + n] == Head(stamp, attempt, text);
    } else {
      var k :| 0 <= k < n && text[k] == 0;
      assert tail[k] == 0;
    }
  }

  // ---- the way back ----

  /** meshcore_mesh_create_multi_ack_data, read back as the nested acknowledgement */
  function MultiAck(ack: seq<u8>, remaining: u8): seq<u8> { [(remaining * 16 + ACK_TYPE) % 0x100] + ack }

  /** The plaintext of a PATH reply: the path the message took, the extra's type and the extra. */
  function PathReply(pathLen: u8, path: seq<u8>, extraType: u8, extra: seq<u8>): seq<u8>
  {
    [pathLen] + path + [extraType] + extra
  }

  datatype PathParts = PathParts(pathLen: u8, path: seq<u8>, extraType: u8, extra: seq<u8>)

  /** How meshcore_mesh_on_recv_packet takes a decrypted PATH payload apart. */
  function ParsePath(data: seq<u8>): Option<PathParts>
  {
    if |data| < 2 then None
    else
      var n := ByteLen(data[0]);
      if 1 + n + 1 > |data| then None
      else Some(PathParts(data[0], data[1..1 + n], data[1 + n] % 16, data[2 + n..]))
  }

  /** A sealed PATH reply is opened to the same path, type and extra, the extra followed only by zeros. */
  lemma {:induction false} PathReplyArrives(c: Crypto, key: seq<u8>, pathLen: u8, path: seq<u8>, extraType: u8, extra: seq<u8>)
    requires Sound(c) && |path| == ByteLen(pathLen) && extraType < 16
    ensures var plain := Opened(c, key, Sealed(c, key, PathReply(pathLen, path, extraType, extra)));
            && plain.Some? && ParsePath(plain.value).Some?
            && (var p := ParsePath(plain.value).value;
                && p.pathLen == pathLen && p.path == path && p.extraType == extraType
                && |extra| <= |p.extra| && p.extra[..|extra|] == extra
                && forall i :: |extra| <= i < |p.extra| ==> p.extra[i] == 0)
  {
    var d := PathReply(pathLen, path, extraType, extra);
    OpenSealed(c, key, d);
    PaddedZeros(d);
    ParseReply(pathLen, path, extraType, extra, |Padded(d)| - |d|);
  }

  lemma {:induction false} PaddedZeros(d: seq<u8>)
    ensures |d| <= |Padded(d)| && Padded(d) == d + Zeros(|Padded(d)| - |d|)
  {
    PaddedShape(d);
  }

  lemma ParseReply(pathLen: u8, path: seq<u8>, extraType: u8, extra: seq<u8>, z: nat)
    requires |path| == ByteLen(pathLen) && extraType < 16
    ensures ParsePath(PathReply(pathLen, path, extraType, extra) + Zeros(z)) == Some(PathParts(pathLen, path, extraType, extra + Zeros(z)))
  {
    var data, n := PathReply(pathLen, path, extraType, extra) + Zeros(z), |path|;
    assert data[0] == pathLen && data[1 + n] == extraType;
    assert data[1..1 + n] == path;
    assert data[2 + n..] == extra + Zeros(z);
  }

  /** What the sender of the message finds in each kind of reply. */
  datatype Reply = Direct(payload: seq<u8>) | Multi(payload: seq<u8>) | InPath(sealedData: seq<u8>)

  /** A pending path discovery: its tag, and whether the sender is the peer it asked. */
  datatype Discovery = Discovery(tag: Option<u32>, fromPeer: bool)

  const RESPONSE_TYPE: u8 := 1

  /** When meshcore_runtime_pending_discovery_handle takes a PATH reply for itself. */
  predicate Claims(d: Discovery, p: PathParts)
  {
    && d.tag.Some? && p.extraType == RESPONSE_TYPE && d.fromPeer && ValidPathLen(p.pathLen)
    && |p.extra| >= 4 && Crc(p.extra) == d.tag.value
  }

  /** The CRC that reaches expected_ack_handle on a chat node, whatever discovery is pending. */
  function ReplyCrc(c: Crypto, key: seq<u8>, d: Discovery, r: Reply): Option<u32>
  {
    match r
    case Direct(p) => if |p| >= 4 then Some(Crc(p)) else None
    case Multi(p) => if |p| >= 5 && p[0] % 16 == ACK_TYPE then Some(Crc(p[1..])) else None
    case InPath(s) =>
      var data := Opened(c, key, s);
      if data.None? then None
      else
        var p := ParsePath(data.value);
        if p.Some? && !Claims(d, p.value) && p.value.extraType == ACK_TYPE && |p.value.extra| >= 4 then Some(Crc(p.value.extra)) else None
  }

  /** The replies the receiver may send for an acknowledgement. */
  ghost predicate Carries(c: Crypto, key: seq<u8>, ack: seq<u8>, r: Reply)
  {
    match r
    case Direct(p) => p == ack
    case Multi(p) => exists remaining: u8 :: p == MultiAck(ack, remaining)
    case InPath(s) => exists pathLen: u8, path: seq<u8> ::
      |path| == ByteLen(pathLen) && s == Sealed(c, key, PathReply(pathLen, path, ACK_TYPE, ack))
  }

  lemma CrcPrefix(a: seq<u8>, b: seq<u8>)
    requires |a| >= 4 && |b| >= 4 && a[..4] == b[..4]
    ensures Crc(a) == Crc(b)
  {
    assert a[0] == a[..4][0] && a[1] == a[..4][1] && a[2] == a[..4][2] && a[3] == a[..4][3];
  }

  /** Every kind of reply brings the CRC; a pending discovery never claims an acknowledgement. */
  lemma {:induction false} ReplyBringsCrc(c: Crypto, key: seq<u8>, d: Discovery, ack: seq<u8>, r: Reply)
    requires Sound(c) && |ack| >= 4 && Carries(c, key, ack, r)
    ensures ReplyCrc(c, key, d, r) == Some(Crc(ack))
  {
    match r
    case Direct(_) =>
    case Multi(p) =>
      var remaining: u8 :| p == MultiAck(ack, remaining);
      MultiBringsCrc(c, key, d, remaining, ack);
    case InPath(s) =>
      var pathLen: u8, path: seq<u8> :|
        |path| == ByteLen(pathLen) && s == Sealed(c, key, PathReply(pathLen, path, ACK_TYPE, ack));
      InPathBringsCrc(c, key, d, pathLen, path, ack);
  }

  lemma {:induction false} MultiBringsCrc(c: Crypto, key: seq<u8>, d: Discovery, remaining: u8, ack: seq<u8>)
    requires |ack| >= 4
    ensures ReplyCrc(c, key, d, Multi(MultiAck(ack, remaining))) == Some(Crc(ack))
  {
    assert MultiAck(ack, remaining)[1..] == ack;
  }

  lemma {:induction false} InPathBringsCrc(c: Crypto, key: seq<u8>, d: Discovery, pathLen: u8, path: seq<u8>, ack: seq<u8>)
    requires Sound(c) && |ack| >= 4 && |path| == ByteLen(pathLen)
    ensures ReplyCrc(c, key, d, InPath(Sealed(c, key, PathReply(pathLen, path, ACK_TYPE, ack)))) == Some(Crc(ack))
  {
    PathReplyArrives(c, key, pathLen, path, ACK_TYPE, ack);
    var s := Sealed(c, key, PathReply(pathLen, path, ACK_TYPE, ack));
    var extra := ParsePath(Opened(c, key, s).value).value.extra;
    assert extra[..|ack|][..4] == extra[..4];
    CrcPrefix(extra, ack);
  }

  /** End to end: for every legal text without a zero byte, the acknowledgement the receiver computes
      from the opened datagram comes back, by any of the three ways, as the CRC the sender registered. */
  lemma {:induction false} AckCrcReturns(c: Crypto, key: seq<u8>, self: seq<u8>, stamp: seq<u8>, attempt: u8, text: seq<u8>, d: Discovery, ack: seq<u8>, r: Reply)
    requires Sound(c) && |stamp| == 4 && Legal(text, attempt) && 0 !in text
    requires var data := Opened(c, key, Sealed(c, key, Datagram(stamp, attempt, text)));
             data.Some? && |data.value| > 5 ==> |ack| == 6 && ack[..4] == c.hash(Hashed(data.value) + self)
    requires Carries(c, key, ack, r)
    ensures ReplyCrc(c, key, d, r) == Some(Crc(c.hash(Head(stamp, attempt, text) + self)))
  {
    OpenSealed(c, key, Datagram(stamp, attempt, text));
    SameBytesHashed(stamp, attempt, text);
    ReplyBringsCrc(c, key, d, ack, r);
    CrcPrefix(ack, c.hash(Head(stamp, attempt, text) + self));
  }

  /** Together with the ring: a message registered at event n and acknowledged in time at event k is
      published, when its CRC is nonzero and no other message shares it. */
  lemma {:induction false} MessageAcknowledged(c: Crypto, key: seq<u8>, self: seq<u8>, stamp: seq<u8>, attempt: u8, text: seq<u8>, d: Discovery, ack: seq<u8>, r: Reply,
                            run: seq<Stamped>, n: nat, k: nat)
    requires Sound(c) && |stamp| == 4 && Legal(text, attempt) && 0 !in text
    requires var data := Opened(c, key, Sealed(c, key, Datagram(stamp, attempt, text)));
             data.Some? && |data.value| > 5 ==> |ack| == 6 && ack[..4] == c.hash(Hashed(data.value) + self)
    requires Carries(c, key, ack, r)
    requires n < k < |run| && run[n].event == Sent(Crc(c.hash(Head(stamp, attempt, text) + self))) && run[n].event.crc != 0
    requires ReplyCrc(c, key, d, r).Some? && run[k].event == AckArrived(ReplyCrc(c, key, d, r).value)
    requires Undisturbed(run, n, k) && !TimeReached(Clock(run[k]), Later(Clock(run[n]), TIMEOUT))
    requires forall m :: 0 <= m < k && m != n ==> run[m].event != run[n].event
    ensures Published(run, k) == Some(n)
  {
    AckCrcReturns(c, key, self, stamp, attempt, text, d, ack, r);
    AckPublishes(run, n, k);
  }

  // ---- the bytes on the way ----

  /** The datagram: four bytes of time stamp, the two low bits of the attempt, the text; from the fifth
      attempt on a zero and the attempt number. */
  lemma {:induction false} DatagramBytes(stamp: seq<u8>, attempt: u8, text: seq<u8>)
    requires |stamp| == 4
    ensures var d, n := Datagram(stamp, attempt, text), |text|;
            && |d| == 5 + n + (if attempt >= 4 then 2 else 0)
            && d[..4] == stamp && d[4] == attempt % 4 && d[5..5 + n] == text
            && (attempt >= 4 ==> d[5 + n] == 0 && d[6 + n] == attempt)
  {}

  /** The receiver's acknowledgement repeats the attempt number of a later attempt, and zero for the first
      four, whatever the padding. */
  lemma {:induction false} AttemptEchoed(stamp: seq<u8>, attempt: u8, text: seq<u8>)
    requires |stamp| == 4 && Legal(text, attempt) && 0 !in text
    ensures var data := Padded(Datagram(stamp, attempt, text));
            |data| > 5 && BehindText(data) == if attempt >= 4 then attempt else 0
  {
    var d, n := Datagram(stamp, attempt, text), |text|;
    var data := Padded(d);
    PaddedShape(d);
    SameBytesHashed(stamp, attempt, text);
    assert FirstZero(data[5..]) == n by {
      assert |Hashed(data)| == 5 + FirstZero(data[5..]);
      assert |Head(stamp, attempt, text)| == 5 + n;
    }
    if attempt >= 4 { assert data[6 + n] == data[..|d|][6 + n] == d[6 + n]; }
  }

  /** The CRC's bytes, least significant first. */
  lemma {:induction false} CrcBytes(b: seq<u8>)
    requires |b| >= 4
    ensures Crc(b) % 0x100 == b[0] && Crc(b) / 0x100 % 0x100 == b[1] && Crc(b) / 0x1_0000 % 0x100 == b[2] && Crc(b) / 0x100_0000 == b[3]
  {
    var b0: int, b1: int, b2: int, b3: int := b[0], b[1], b[2], b[3];
    DivModUnique(Crc(b), b1 + 0x100 * b2 + 0x1_0000 * b3, b0, 0x100);
    DivModUnique(b1 + 0x100 * b2 + 0x1_0000 * b3, b2 + 0x100 * b3, b1, 0x100);
    DivModUnique(Crc(b), b2 + 0x100 * b3, b0 + 0x100 * b1, 0x1_0000);
    DivModUnique(b2 + 0x100 * b3, b3, b2, 0x100);
    DivModUnique(Crc(b), b3, b0 + 0x100 * b1 + 0x1_0000 * b2, 0x100_0000);
  }

  /** A multi-acknowledgement starts with the number still to come and type 3; a PATH reply is the path
      length field, the path, the type of the extra and the extra. */
  lemma {:induction false} ReplyBytes(ack: seq<u8>, remaining: u8, pathLen: u8, path: seq<u8>, extraType: u8)
    ensures var m := MultiAck(ack, remaining); m[0] % 16 == 3 && m[0] / 16 == remaining % 16 && m[1..] == ack
    ensures var p, n := PathReply(pathLen, path, extraType, ack), |path|;
            p[0] == pathLen && p[1..1 + n] == path && p[1 + n] == extraType && p[2 + n..] == ack
  {}
}
