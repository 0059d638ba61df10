/** The wire format of a packet: what a frame is, its encoding, and the two parsers. */
module WireSpec {
  import opened Words

  const MAX_PATH: nat := 64
  const MAX_PAYLOAD: nat := 184
  const MAX_UNIT: nat := 255

  /** The wire fields; `codes` is the four-byte image of the transport codes, absent without them. */
  datatype Frame = Frame(header: u8, codes: seq<u8>, pathLen: u8, path: seq<u8>, payload: seq<u8>)

  function RouteType(header: u8): u8 { header % 4 }
  function PayloadType(header: u8): u8 { header / 4 % 16 }
  function PayloadVersion(header: u8): u8 { header / 64 % 4 }
  predicate HasCodes(header: u8) { RouteType(header) == 0 || RouteType(header) == 3 }
  predicate IsFlood(header: u8) { RouteType(header) == 0 || RouteType(header) == 1 }

  function HashSize(pathLen: u8): nat { pathLen / 64 + 1 }
  function HashCount(pathLen: u8): nat { pathLen % 64 }
  function ByteLen(pathLen: u8): nat { HashCount(pathLen) * HashSize(pathLen) }

  /** meshcore_packet_is_valid_path_len */
  predicate ValidPathLen(pathLen: u8) { HashSize(pathLen) != 4 && ByteLen(pathLen) <= MAX_PATH }

  predicate WellFormed(f: Frame)
  {
    && |f.codes| == (if HasCodes(f.header) then 4 else 0)
    && ValidPathLen(f.pathLen) && |f.path| == ByteLen(f.pathLen)
    && |f.payload| <= MAX_PAYLOAD
  }

  function Encode(f: Frame): (b: seq<u8>)
    ensures WellFormed(f) ==> |b| < MAX_UNIT
  {
    [f.header] + f.codes + [f.pathLen] + f.path + f.payload
  }

  function Codes(b: seq<u8>): (n: nat)
    requires b != []
  {
    if HasCodes(b[0]) then 4 else 0
  }

  /** The fields at the places the header and the path length dictate, if the buffer is long enough. */
  function Split(b: seq<u8>): Option<Frame>
  {
    if b == [] then None
    else
      var c := Codes(b);
      if 1 + c >= |b| then None
      else
        var n := ByteLen(b[1 + c]);
        if !ValidPathLen(b[1 + c]) || 2 + c + n > |b| || |b| - (2 + c + n) > MAX_PAYLOAD then None
        else Some(Frame(b[0], b[1..1 + c], b[1 + c], b[2 + c..2 + c + n], b[2 + c + n..]))
  }

  /** meshcore_packet_read_from: an empty payload is refused. */
  function Read(b: seq<u8>): Option<Frame>
  {
    var f := Split(b);
    if f.Some? && f.value.payload != [] then f else None
  }

  /** meshcore_dispatcher_try_parse_packet: only version 1, but an empty payload is fine. */
  function Parse(b: seq<u8>): Option<Frame>
  {
    var f := Split(b);
    if f.Some? && PayloadVersion(f.value.header) == 0 then f else None
  }

  // ---- the layout in numbers ----

  /** The header byte: version in the top two bits, payload type in the next four, route type in the last
      two. Types 0 and 3 carry transport codes, 0 and 1 are floods. */
  lemma {:induction false} HeaderFields(version: nat, kind: nat, route: nat)
    requires version < 4 && kind < 16 && route < 4
    ensures var h := version * 64 + kind * 4 + route;
            && PayloadVersion(h) == version && PayloadType(h) == kind && RouteType(h) == route
            && (HasCodes(h) <==> route in {0, 3}) && (IsFlood(h) <==> route in {0, 1})
  {
    var h := version * 64 + kind * 4 + route;
    assert h / 4 == version * 16 + kind && h / 64 == version;
  }

  /** The path length fields a packet may carry: up to 63 one-byte, 32 two-byte or 21 three-byte hashes. */
  lemma PathLengths(f: u8)
    ensures ValidPathLen(f) <==> f <= 63 || 64 <= f <= 96 || 128 <= f <= 149
    ensures ValidPathLen(f) ==> ByteLen(f) == if f <= 63 then f else if f <= 96 then 2 * (f - 64) else 3 * (f - 128)
  {}

  /** A frame of route type 1 or 2: header, path length, path, payload. */
  lemma {:induction false} PlainLayout(h: u8, n: u8, path: seq<u8>, payload: seq<u8>)
    requires h % 4 in {1, 2} && (n <= 63 || 64 <= n <= 96 || 128 <= n <= 149)
    requires |path| == (n % 64) * (n / 64 + 1) && |payload| <= 184
    ensures Split([h, n] + path + payload) == Some(Frame(h, [], n, path, payload))
    ensures Encode(Frame(h, [], n, path, payload)) == [h, n] + path + payload
  {
    PathLengths(n);
    var f := Frame(h, [], n, path, payload);
    SplitOfEncode(f);
    assert [h] + [] + [n] == [h, n];
  }

  /** A frame of route type 0 or 3: four bytes of transport codes between header and path length. */
  lemma {:induction false} CodedLayout(h: u8, c0: u8, c1: u8, c2: u8, c3: u8, n: u8, path: seq<u8>, payload: seq<u8>)
    requires h % 4 in {0, 3} && (n <= 63 || 64 <= n <= 96 || 128 <= n <= 149)
    requires |path| == (n % 64) * (n / 64 + 1) && |payload| <= 184
    ensures Split([h, c0, c1, c2, c3, n] + path + payload) == Some(Frame(h, [c0, c1, c2, c3], n, path, payload))
    ensures Encode(Frame(h, [c0, c1, c2, c3], n, path, payload)) == [h, c0, c1, c2, c3, n] + path + payload
  {
    PathLengths(n);
    var f := Frame(h, [c0, c1, c2, c3], n, path, payload);
    SplitOfEncode(f);
    assert [h] + [c0, c1, c2, c3] + [n] == [h, c0, c1, c2, c3, n];
  }

  /** Which buffers the parsers accept, byte by byte: the path length field is the second byte, or the
      sixth behind transport codes; the payload is the rest. */
  lemma {:induction false} AcceptedIff(b: seq<u8>)
    requires b != []
    ensures var at := if b[0] % 4 in {1, 2} then 1 else 5;
            var fits := && at < |b| && (b[at] <= 63 || 64 <= b[at] <= 96 || 128 <= b[at] <= 149)
                        && (var rest := |b| - (at + 1) - ByteLen(b[at]); 0 <= rest <= 184);
            && (Parse(b).Some? <==> fits && b[0] < 64)
            && (Read(b).Some? <==> fits && |b| > at + 1 + ByteLen(b[at]))
  {
    var at := if b[0] % 4 in {1, 2} then 1 else 5;
    assert at == 1 + Codes(b);
    if at < |b| { PathLengths(b[at]); }
  }

  lemma SplitOfEncode(f: Frame)
    requires WellFormed(f)
    ensures Split(Encode(f)) == Some(f)
  {
    var b, c, n := Encode(f), |f.codes|, |f.path|;
    assert b[0] == f.header;
    assert b[1 + c] == f.pathLen;
    assert b[1..1 + c] == f.codes;
    assert b[2 + c..2 + c + n] == f.path;
    assert b[2 + c + n..] == f.payload;
  }

  lemma EncodeOfSplit(b: seq<u8>)
    requires Split(b).Some?
    ensures WellFormed(Split(b).value) && Encode(Split(b).value) == b
  {
    var c := Codes(b);
    var n := ByteLen(b[1 + c]);
    assert b == b[..1] + b[1..1 + c] + b[1 + c..2 + c] + b[2 + c..2 + c + n] + b[2 + c + n..];
    assert b[..1] == [b[0]] && b[1 + c..2 + c] == [b[1 + c]];
  }

  /** read_from accepts exactly the encodings of well-formed frames with a payload, and inverts them. */
  lemma ReadIff(b: seq<u8>, f: Frame)
    ensures Read(b) == Some(f) <==> WellFormed(f) && f.payload != [] && b == Encode(f)
  {
    if WellFormed(f) && b == Encode(f) { SplitOfEncode(f); }
    if Split(b).Some? { EncodeOfSplit(b); }
  }

  /** The dispatcher's parser accepts exactly the encodings of well-formed version-1 frames. */
  lemma ParseIff(b: seq<u8>, f: Frame)
    ensures Parse(b) == Some(f) <==> WellFormed(f) && PayloadVersion(f.header) == 0 && b == Encode(f)
  {
    if WellFormed(f) && b == Encode(f) { SplitOfEncode(f); }
    if Split(b).Some? { EncodeOfSplit(b); }
  }

  /** The two parsers differ on nothing else: one accepts empty payloads, the other later versions. */
  lemma {:induction false} ParsersAgree(b: seq<u8>)
    ensures Read(b) != Parse(b) <==>
            exists f :: WellFormed(f) && b == Encode(f) && (f.payload == []) == (PayloadVersion(f.header) == 0)
    ensures Read(b).Some? && Parse(b).Some? ==> Read(b) == Parse(b)
  {
    if Split(b).Some? {
      EncodeOfSplit(b);
      var f := Split(b).value;
      assert Read(b) != Parse(b) <==> ((f.payload == []) == (PayloadVersion(f.header) == 0));
    }
    if f :| WellFormed(f) && b == Encode(f) && (f.payload == []) == (PayloadVersion(f.header) == 0) {
      SplitOfEncode(f);
    }
  }

  /** The do-not-retransmit marker is never received, though read_from would decode it. */
  lemma MarkerNeverReceived(b: seq<u8>)
    ensures Parse(b).Some? ==> Parse(b).value.header != 0xFF
    ensures Read([0xFF, 0, 0, 0, 0, 0, 1]) == Some(Frame(0xFF, [0, 0, 0, 0], 0, [], [1]))
  {
    var f := Frame(0xFF, [0, 0, 0, 0], 0, [], [1]);
    assert Encode(f) == [0xFF, 0, 0, 0, 0, 0, 1];
    ReadIff([0xFF, 0, 0, 0, 0, 0, 1], f);
  }
}

/** struct meshcore_packet and the routines that walk an index over its byte buffers. */
module WireCodec {
  import opened Words
  import opened WireSpec

  /** memcpy between buffers that do not overlap */
  method CopyBytes(dest: array<u8>, at: nat, src: array<u8>, from: nat, n: nat)
    requires dest != src && at + n <= dest.Length && from + n <= src.Length
    modifies dest
    ensures dest[..at + n] == old(dest[..at]) + src[from..from + n]
    ensures dest[at + n..] == old(dest[at + n..])
  {
    for k := 0 to n
      invariant dest[..at + k] == old(dest[..at]) + src[from..from + k]
      invariant dest[at + k..] == old(dest[at + k..])
    {
      assert src[from..from + (k + 1)] == src[from..from + k] + [src[from + k]];
      dest[at + k] := src[from + k];
    }
  }

  /** Overwriting one byte leaves what is behind it. */
  lemma TailAfterUpdate(s: seq<u8>, i: nat, x: u8)
    requires i < |s|
    ensures s[i := x][..i + 1] == s[..i] + [x] && s[i := x][i + 1..] == s[i + 1..]
  {}

  lemma TailOfTail(s: seq<u8>, i: nat, n: nat)
    requires i + n <= |s|
    ensures s[i..][n..] == s[i + n..]
  {}

  lemma SliceOfPrefix(s: seq<u8>, n: nat, i: nat, j: nat)
    requires i <= j <= n <= |s|
    ensures s[..n][i..j] == s[i..j]
  {}

  /** A frame whose fields are the bytes at their places is what the buffer splits into. */
  lemma SplitParts(s: seq<u8>, len: nat, f: Frame)
    requires 0 < len <= |s| && f.header == s[0]
    requires var c := if HasCodes(s[0]) then 4 else 0;
             && 1 + c < len && f.codes == s[1..1 + c] && f.pathLen == s[1 + c] && ValidPathLen(f.pathLen)
             && (var n := ByteLen(f.pathLen);
                 && 2 + c + n <= len && len - (2 + c + n) <= MAX_PAYLOAD
                 && f.path == s[2 + c..2 + c + n] && f.payload == s[2 + c + n..len])
    ensures Split(s[..len]) == Some(f)
  {
    var c, n := if HasCodes(s[0]) then 4 else 0, ByteLen(f.pathLen);
    SliceOfPrefix(s, len, 1, 1 + c);
    SliceOfPrefix(s, len, 2 + c, 2 + c + n);
    SliceOfPrefix(s, len, 2 + c + n, len);
  }

  /** memcpy to the start of a field; s is the source buffer's content. */
  method Fill(dest: array<u8>, src: array<u8>, from: nat, n: nat, ghost s: seq<u8>)
    requires dest != src && n <= dest.Length && from + n <= src.Length && s == src[..]
    modifies dest
    ensures dest[..n] == s[from..from + n]
  {
    CopyBytes(dest, 0, src, from, n);
    assert src[from..from + n] == s[from..from + n];
  }

  /** A payload that would be too long is not split off. */
  lemma NoSplit(s: seq<u8>, len: nat)
    requires 0 < len <= |s|
    requires var c := if HasCodes(s[0]) then 4 else 0;
             1 + c < len && ValidPathLen(s[1 + c]) && len > 2 + c + ByteLen(s[1 + c]) + MAX_PAYLOAD
    ensures Split(s[..len]) == None
  {}

  /** The next n bytes of a buffer that so far starts with `front` and is otherwise as it was. */
  method Append(dest: array<u8>, i: nat, src: array<u8>, n: nat, ghost front: seq<u8>, ghost was: seq<u8>)
    requires dest != src && i + n <= dest.Length == |was| && n <= src.Length
    requires dest[..i] == front && dest[i..] == was[i..]
    modifies dest
    ensures dest[..i + n] == front + src[..n] && dest[i + n..] == was[i + n..]
  {
    TailOfTail(was, i, n);
    TailOfTail(dest[..], i, n);
    CopyBytes(dest, i, src, 0, n);
  }

  method PutByte(dest: array<u8>, i: nat, x: u8, ghost front: seq<u8>, ghost was: seq<u8>) returns (j: nat)
    requires i < dest.Length == |was| && dest[..i] == front && dest[i..] == was[i..]
    modifies dest
    ensures j == i + 1 && dest[..j] == front + [x] && dest[j..] == was[j..]
  {
    ghost var b := dest[..];
    TailAfterUpdate(b, i, x);
    TailOfTail(was, i, 1);
    TailOfTail(b, i, 1);
    dest[i] := x;
    assert dest[..] == b[i := x];
    j := i + 1;
  }

  class Packet {
    var header: u8
    const codes: array<u8>
    var pathLen: u16
    const path: array<u8>
    var payloadLen: u16
    const payload: array<u8>

    predicate Shape()
    {
      && codes.Length == 4 && path.Length == MAX_PATH && payload.Length == MAX_PAYLOAD
      && codes != path && codes != payload && path != payload
    }

    /** The packet can be written: valid path length field and payload length. */
    predicate Writable()
      reads this
    {
      ValidPathLen(pathLen % 0x100) && payloadLen <= MAX_PAYLOAD
    }

    ghost function Wire(): Frame
      requires Shape() && Writable()
      reads this, codes, path, payload
    {
      Frame(header, if HasCodes(header) then codes[..] else [], pathLen % 0x100,
            path[..ByteLen(pathLen % 0x100)], payload[..payloadLen])
    }

    constructor ()
      ensures Shape() && fresh(codes) && fresh(path) && fresh(payload)
    {
      header, pathLen, payloadLen := 0, 0, 0;
      codes := new u8[4](_ => 0);
      path := new u8[MAX_PATH](_ => 0);
      payload := new u8[MAX_PAYLOAD](_ => 0);
    }

    /** meshcore_packet_write_to */
    method WriteTo(dest: array<u8>) returns (len: u8)
      requires Shape() && dest.Length >= MAX_UNIT && dest != codes && dest != path && dest != payload
      modifies dest
      ensures len == 0 <==> !Writable()
      ensures len > 0 ==> WellFormed(Wire()) && dest[..len] == Encode(Wire()) && dest[len..] == old(dest[len..])
    {
      var field: u8 := pathLen % 0x100;
      if !ValidPathLen(field) || payloadLen > MAX_PAYLOAD {
        return 0;
      }
      ghost var was := dest[..];
      var i := WriteHead(dest, field);
      Append(dest, i, path, ByteLen(field), dest[..i], was);
      i := i + ByteLen(field);
      Append(dest, i, payload, payloadLen, dest[..i], was);
      len := i + payloadLen;
    }

    method WriteHead(dest: array<u8>, field: u8) returns (i: nat)
      requires Shape() && dest.Length >= MAX_UNIT && dest != codes
      modifies dest
      ensures i == 2 + if HasCodes(header) then 4 else 0
      ensures dest[..i] == [header] + (if HasCodes(header) then codes[..] else []) + [field]
      ensures dest[i..] == old(dest[i..])
    {
      ghost var was := dest[..];
      i := PutByte(dest, 0, header, [], was);
      if HasCodes(header) {
        Append(dest, i, codes, 4, [header], was);
        i := i + 4;
      }
      i := PutByte(dest, i, field, [header] + (if HasCodes(header) then codes[..] else []), was);
    }

    /** The part both parsers share: read the transport codes. */
    method ReadCodes(src: array<u8>, len: u8) returns (ok: bool, i: nat)
      requires Shape() && 0 < len <= src.Length && header == src[0] && src != codes
      modifies codes
      ensures ok == (1 + (if HasCodes(src[0]) then 4 else 0) <= len)
      ensures ok ==> i == 1 + if HasCodes(src[0]) then 4 else 0
      ensures ok && HasCodes(header) ==> codes[..] == src[..][1..i]
      ensures ok && !HasCodes(header) ==> codes[..] == [0, 0, 0, 0]
    {
      i := 1;
      if HasCodes(header) {
        if i + 4 > len {
          return false, i;
        }
        CopyBytes(codes, 0, src, i, 4);
        i := i + 4;
      } else {
        codes[0], codes[1], codes[2], codes[3] := 0, 0, 0, 0;
      }
      ok := true;
    }

    /** The other part both parsers share: path bytes at i, then the payload. */
    method ReadBody(src: array<u8>, len: u8, at: nat) returns (ok: bool)
      requires Shape() && len <= src.Length && src != codes && src != path && src != payload
      requires at == 2 + (if HasCodes(header) then 4 else 0) <= len && header == src[0] && pathLen == src[at - 1]
      requires ValidPathLen(pathLen) && at + ByteLen(pathLen) <= len
      requires HasCodes(header) ==> codes[..] == src[..][1..5]
      modifies this`payloadLen, path, payload
      ensures ok == Split(src[..][..len]).Some?
      ensures ok ==> Writable() && Split(src[..][..len]) == Some(Wire())
    {
      ghost var s := src[..];
      var n := ByteLen(pathLen);
      Fill(path, src, at, n, s);
      payloadLen := len - (at + n);
      if payloadLen > MAX_PAYLOAD {
        NoSplit(s, len);
        return false;
      }
      Fill(payload, src, at + n, payloadLen, s);
      assert HasCodes(header) ==> codes[..] == s[1..5];
      SplitParts(s, len, Wire());
      ok := true;
    }

    /** meshcore_packet_read_from */
    method ReadFrom(src: array<u8>, len: u8) returns (ok: bool)
      requires Shape() && len <= src.Length && src != codes && src != path && src != payload
      modifies this, codes, path, payload
      ensures ok == Read(src[..len]).Some?
      ensures ok ==> Writable() && Read(src[..len]) == Some(Wire())
      ensures ok && !HasCodes(header) ==> codes[..] == [0, 0, 0, 0]
    {
      if len == 0 {
        return false;
      }
      header := src[0];
      var i;
      ok, i := ReadCodes(src, len);
      if !ok || i >= len {
        return false;
      }
      pathLen := src[i];
      i := i + 1;
      if !ValidPathLen(pathLen) {
        return false;
      }
      var pathByteLen := ByteLen(pathLen);
      if i + pathByteLen > len {
        return false;
      }
      if i + pathByteLen >= len {
        return false;
      }
      assert src[..][..len] == src[..len];
      ok := ReadBody(src, len, i);
    }

    /** meshcore_dispatcher_try_parse_packet */
    method TryParse(src: array<u8>, len: u8) returns (ok: bool)
      requires Shape() && len <= src.Length && src != codes && src != path && src != payload
      modifies this, codes, path, payload
      ensures ok == Parse(src[..len]).Some?
      ensures ok ==> Writable() && Parse(src[..len]) == Some(Wire())
      ensures ok && !HasCodes(header) ==> codes[..] == [0, 0, 0, 0]
    {
      if len == 0 {
        return false;
      }
      header := src[0];
      if PayloadVersion(header) > 0 {
        return false;
      }
      var i;
      ok, i := ReadCodes(src, len);
      if !ok || i >= len {
        return false;
      }
      pathLen := src[i];
      i := i + 1;
      if pathLen / 64 == 3 {
        return false;
      }
      var pathByteLen := ByteLen(pathLen);
      if pathByteLen > MAX_PATH || i + pathByteLen > len {
        return false;
      }
      assert src[..][..len] == src[..len];
      ok := ReadBody(src, len, i);
    }
  }
}
