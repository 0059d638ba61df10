/** Padded block encryption and encrypt-then-MAC over an abstract keyed block bijection. */
module Cipher {
  import opened Words

  const BLOCK: nat := 16
  const MAC: nat := 2

  /** What the platform supplies: block cipher, truncated HMAC and the four-byte message hash. */
  datatype Crypto = Crypto(enc: (seq<u8>, seq<u8>) -> seq<u8>, dec: (seq<u8>, seq<u8>) -> seq<u8>,
                           hmac: (seq<u8>, seq<u8>) -> seq<u8>, hash: seq<u8> -> seq<u8>)

  ghost predicate Sound(c: Crypto)
  {
    && (forall k, b :: |c.enc(k, b)| == BLOCK)
    && (forall k, b :: |c.dec(k, b)| == BLOCK)
    && (forall k, b {:trigger c.enc(k, b)} :: |b| == BLOCK ==> c.dec(k, c.enc(k, b)) == b)
    && (forall k, m :: |c.hmac(k, m)| == MAC)
    && (forall m :: |c.hash(m)| == 4)
  }

  function Ciphertext(c: Crypto, key: seq<u8>, src: seq<u8>): seq<u8>
    decreases |src|
  {
    if src == [] then []
    else if |src| < BLOCK then c.enc(key, src + Zeros(BLOCK - |src|))
    else c.enc(key, src[..BLOCK]) + Ciphertext(c, key, src[BLOCK..])
  }

  function Plaintext(c: Crypto, key: seq<u8>, src: seq<u8>): seq<u8>
    decreases |src|
  {
    if |src| < BLOCK then [] else c.dec(key, src[..BLOCK]) + Plaintext(c, key, src[BLOCK..])
  }

  /** The source followed by zeros up to a whole number of blocks. */
  function Padded(src: seq<u8>): (p: seq<u8>)
    decreases |src|
  {
    if src == [] then []
    else if |src| < BLOCK then src + Zeros(BLOCK - |src|)
    else src[..BLOCK] + Padded(src[BLOCK..])
  }

  /** Padding keeps the source as a prefix, adds fewer than 16 bytes, all zero, and fills whole blocks. */
  lemma {:induction false} PaddedShape(src: seq<u8>)
    ensures var p := Padded(src);
            && |src| <= |p| < |src| + BLOCK && |p| % BLOCK == 0 && p[..|src|] == src
            && forall i :: |src| <= i < |p| ==> p[i] == 0
    decreases |src|
  {
    if |src| >= BLOCK {
      var rest := src[BLOCK..];
      PaddedShape(rest);
      var p, q := Padded(src), Padded(rest);
      assert p[..|src|] == src[..BLOCK] + q[..|rest|] == src;
      forall i | |src| <= i < |p|
        ensures p[i] == 0
      {
        assert p[i] == q[i - BLOCK];
      }
    }
  }

  lemma {:induction false} CiphertextLength(c: Crypto, key: seq<u8>, src: seq<u8>)
    requires Sound(c)
    ensures |Ciphertext(c, key, src)| == |Padded(src)|
    decreases |src|
  {
    if |src| >= BLOCK { CiphertextLength(c, key, src[BLOCK..]); }
  }

  /** Decryption undoes encryption up to the zero padding. */
  lemma {:induction false} DecryptEncrypt(c: Crypto, key: seq<u8>, src: seq<u8>)
    requires Sound(c)
    ensures Plaintext(c, key, Ciphertext(c, key, src)) == Padded(src)
    decreases |src|
  {
    if 0 < |src| {
      var first := if |src| < BLOCK then src + Zeros(BLOCK - |src|) else src[..BLOCK];
      var rest := if |src| < BLOCK then [] else src[BLOCK..];
      if |src| >= BLOCK { DecryptEncrypt(c, key, rest); }
      var e, t := c.enc(key, first), Ciphertext(c, key, rest);
      assert c.dec(key, e) == first;
      assert (e + t)[..BLOCK] == e && (e + t)[BLOCK..] == t;
      assert Ciphertext(c, key, src) == e + t;
    }
  }

  method WriteBytes(dest: array<u8>, at: nat, bytes: seq<u8>)
    requires at + |bytes| <= dest.Length
    modifies dest
    ensures dest[..at + |bytes|] == old(dest[..at]) + bytes && dest[at + |bytes|..] == old(dest[at + |bytes|..])
  {
    for i := 0 to |bytes|
      invariant dest[..at + i] == old(dest[..at]) + bytes[..i]
      invariant dest[at + i..] == old(dest[at + i..])
    {
      dest[at + i] := bytes[i];
    }
    assert bytes[..|bytes|] == bytes;
  }

  /** meshcore_utils_encrypt; the platform's block call fails once `good` calls have succeeded, and then
      the C function returns an error */
  method Encrypt(c: Crypto, key: seq<u8>, dest: array<u8>, at: nat, src: seq<u8>, good: nat) returns (r: Option<nat>)
    requires Sound(c) && at + |Padded(src)| <= dest.Length
    modifies dest
    ensures r == if |Padded(src)| <= BLOCK * good then Some(|Padded(src)|) else None
    ensures dest[..at] == old(dest[..at])
    ensures r.Some? ==> dest[..at + r.value] == old(dest[..at]) + Ciphertext(c, key, src)
  {
    var ok, sp := EncryptWhole(c, key, dest, at, src, good);
    if !ok {
      return None;
    }
    RestLength(src[sp..]);
    r := EncryptRest(c, key, dest, at + sp, src[sp..], sp < BLOCK * good, at);
    if r.Some? {
      r := Some(sp + r.value);
    }
  }

  lemma RestLength(rest: seq<u8>)
    requires |rest| < BLOCK
    ensures |Padded(rest)| == if rest == [] then 0 else BLOCK
  {}

  /** The loop over whole blocks, up to offset sp of the source. */
  method EncryptWhole(c: Crypto, key: seq<u8>, dest: array<u8>, at: nat, src: seq<u8>, good: nat) returns (ok: bool, sp: nat)
    requires Sound(c) && at + |Padded(src)| <= dest.Length
    modifies dest
    ensures dest[..at] == old(dest[..at])
    ensures !ok ==> |Padded(src)| > BLOCK * good
    ensures ok ==> sp <= |src| < sp + BLOCK && sp <= BLOCK * good && sp % BLOCK == 0 && |Padded(src)| == sp + |Padded(src[sp..])|
    ensures ok ==> dest[..at + sp] + Ciphertext(c, key, src[sp..]) == old(dest[..at]) + Ciphertext(c, key, src)
  {
    ghost var all := dest[..at] + Ciphertext(c, key, src);
    var calls := 0;
    sp := 0;
    assert src[0..] == src;
    while |src| - sp >= BLOCK
      invariant sp <= |src| && sp == BLOCK * calls && calls <= good
      invariant |Padded(src)| == sp + |Padded(src[sp..])|
      invariant dest[..at] == old(dest[..at]) && dest[..at + sp] + Ciphertext(c, key, src[sp..]) == all
    {
      BlockStep(c, key, src, sp);
      if calls == good {
        return false, sp;
      }
      EncryptBlock(c, key, dest, at + sp, src, sp, at);
      sp := sp + BLOCK;
      calls := calls + 1;
    }
    ok := true;
  }

  /** The zero-padded block for what is left, if anything is. */
  method EncryptRest(c: Crypto, key: seq<u8>, dest: array<u8>, dp: nat, rest: seq<u8>, works: bool, ghost at: nat) returns (r: Option<nat>)
    requires Sound(c) && |rest| < BLOCK && at <= dp && dp + |Padded(rest)| <= dest.Length
    modifies dest
    ensures r == if rest == [] || works then Some(|Padded(rest)|) else None
    ensures dest[..at] == old(dest[..at])
    ensures r.Some? ==> dest[..dp + r.value] == old(dest[..dp]) + Ciphertext(c, key, rest)
  {
    if |rest| == 0 {
      return Some(0);
    }
    if !works {
      return None;
    }
    var block := rest + Zeros(BLOCK - |rest|);
    PutBlock(dest, dp, c.enc(key, block), at);
    r := Some(BLOCK);
  }

  /** One whole block: what is written and what is still to come stay the same ciphertext. */
  method EncryptBlock(c: Crypto, key: seq<u8>, dest: array<u8>, dp: nat, src: seq<u8>, sp: nat, ghost at: nat)
    requires Sound(c) && at <= dp && dp + BLOCK <= dest.Length && sp + BLOCK <= |src|
    modifies dest
    ensures dest[..at] == old(dest[..at])
    ensures dest[..dp + BLOCK] + Ciphertext(c, key, src[sp + BLOCK..]) == old(dest[..dp]) + Ciphertext(c, key, src[sp..])
  {
    BlockStep(c, key, src, sp);
    var block := c.enc(key, src[sp..sp + BLOCK]);
    ghost var tail := Ciphertext(c, key, src[sp + BLOCK..]);
    assert dest[..dp] + (block + tail) == (dest[..dp] + block) + tail;
    PutBlock(dest, dp, block, at);
  }

  method PutBlock(dest: array<u8>, dp: nat, block: seq<u8>, ghost at: nat)
    requires at <= dp && dp + |block| <= dest.Length
    modifies dest
    ensures dest[..dp + |block|] == old(dest[..dp]) + block && dest[..at] == old(dest[..at])
  {
    WriteBytes(dest, dp, block);
    assert dest[..dp + |block|][..at] == dest[..at];
    assert old(dest[..dp])[..at] == old(dest[..at]);
  }

  lemma {:induction false} BlockStep(c: Crypto, key: seq<u8>, src: seq<u8>, sp: nat)
    requires sp + BLOCK <= |src|
    ensures Ciphertext(c, key, src[sp..]) == c.enc(key, src[sp..sp + BLOCK]) + Ciphertext(c, key, src[sp + BLOCK..])
    ensures |Padded(src[sp..])| == BLOCK + |Padded(src[sp + BLOCK..])|
  {
    assert src[sp..][..BLOCK] == src[sp..sp + BLOCK] && src[sp..][BLOCK..] == src[sp + BLOCK..];
  }

  /** meshcore_utils_decrypt; none where the C function returns 0 */
  method Decrypt(c: Crypto, key: seq<u8>, src: seq<u8>, good: nat) returns (r: Option<seq<u8>>)
    requires Sound(c)
    ensures r == if 0 < |src| <= BLOCK * good && |src| % BLOCK == 0 then Some(Plaintext(c, key, src)) else None
  {
    if |src| == 0 || |src| % BLOCK != 0 {
      return None;
    }
    var dest := [];
    var sp, calls := 0, 0;
    assert src[0..] == src;
    while sp < |src|
      invariant 0 <= sp <= |src| && (|src| - sp) % BLOCK == 0 && sp == BLOCK * calls && calls <= good
      invariant dest + Plaintext(c, key, src[sp..]) == Plaintext(c, key, src)
    {
      if calls == good {
        return None;
      }
      assert src[sp..][..BLOCK] == src[sp..sp + BLOCK] && src[sp..][BLOCK..] == src[sp + BLOCK..];
      dest := dest + c.dec(key, src[sp..sp + BLOCK]);
      sp := sp + BLOCK;
      calls := calls + 1;
    }
    assert src[sp..] == [] && dest + [] == dest;
    r := Some(dest);
  }

  function Sealed(c: Crypto, key: seq<u8>, src: seq<u8>): seq<u8>
  {
    c.hmac(key, Ciphertext(c, key, src)) + Ciphertext(c, key, src)
  }

  function Opened(c: Crypto, key: seq<u8>, src: seq<u8>): Option<seq<u8>>
  {
    if |src| <= MAC || c.hmac(key, src[MAC..]) != src[..MAC] || (|src| - MAC) % BLOCK != 0 then None
    else Some(Plaintext(c, key, src[MAC..]))
  }

  /** meshcore_utils_encrypt_then_mac; fails when a block call or the HMAC call does */
  method EncryptThenMac(c: Crypto, key: seq<u8>, dest: array<u8>, at: nat, src: seq<u8>, good: nat, hmacWorks: bool)
    returns (r: Option<nat>)
    requires Sound(c) && at + MAC + |Padded(src)| <= dest.Length
    modifies dest
    ensures r == if |Padded(src)| <= BLOCK * good && hmacWorks then Some(MAC + |Padded(src)|) else None
    ensures r.Some? ==> dest[..at] == old(dest[..at]) && dest[at..at + r.value] == Sealed(c, key, src)
  {
    ghost var was := dest[..];
    var enc := Encrypt(c, key, dest, at + MAC, src, good);
    if enc.None? || !hmacWorks {
      return None;
    }
    var encLen := enc.value;
    ghost var ct := Ciphertext(c, key, src);
    CiphertextLength(c, key, src);
    ghost var b := dest[..];
    Parts(b, was[..at + MAC], ct, at);
    var tag := c.hmac(key, dest[at + MAC..at + MAC + encLen]);
    assert tag == c.hmac(key, ct);
    WriteBytes(dest, at, tag);
    r := Some(MAC + encLen);
    Joined(dest[..], b, was[..at], tag, ct, at);
  }

  /** A buffer that starts with a front of at + MAC bytes and the ciphertext. */
  lemma Parts(b: seq<u8>, front: seq<u8>, ct: seq<u8>, at: nat)
    requires |front| == at + MAC && at + MAC + |ct| <= |b| && b[..at + MAC + |ct|] == front + ct
    ensures b[at + MAC..at + MAC + |ct|] == ct && b[..at] == front[..at]
  {
    assert b[..at + MAC + |ct|][at + MAC..] == ct;
    assert b[..at + MAC + |ct|][..at] == b[..at];
  }

  /** The tag written in front of the ciphertext makes the sealed message. */
  lemma Joined(d: seq<u8>, b: seq<u8>, front: seq<u8>, tag: seq<u8>, ct: seq<u8>, at: nat)
    requires |d| == |b| && |tag| == MAC && |front| == at && at + MAC + |ct| <= |b|
    requires d[..at + MAC] == front + tag && d[at + MAC..] == b[at + MAC..] && b[at + MAC..at + MAC + |ct|] == ct
    ensures d[..at] == front && d[at..at + MAC + |ct|] == tag + ct
  {
    assert d[..at + MAC][..at] == front && d[..at + MAC][at..] == tag;
    assert d[at + MAC..][..|ct|] == d[at + MAC..at + MAC + |ct|];
    assert b[at + MAC..][..|ct|] == b[at + MAC..at + MAC + |ct|];
    assert d[at..at + MAC + |ct|] == d[at..at + MAC] + d[at + MAC..at + MAC + |ct|];
  }

  /** meshcore_utils_mac_then_decrypt; nothing is opened when the HMAC call or a block call fails */
  method MacThenDecrypt(c: Crypto, key: seq<u8>, src: seq<u8>, good: nat, hmacWorks: bool) returns (r: Option<seq<u8>>)
    requires Sound(c)
    ensures r == if hmacWorks && |src| <= MAC + BLOCK * good then Opened(c, key, src) else None
  {
    if |src| <= MAC || !hmacWorks {
      return None;
    }
    var tag := c.hmac(key, src[MAC..]);
    if tag != src[..MAC] {
      return None;
    }
    r := Decrypt(c, key, src[MAC..], good);
  }

  /** Whoever holds the key recovers any non-empty plaintext with its zero padding. */
  lemma {:induction false} OpenSealed(c: Crypto, key: seq<u8>, src: seq<u8>)
    requires Sound(c) && src != []
    ensures Opened(c, key, Sealed(c, key, src)) == Some(Padded(src))
  {
    var ct := Ciphertext(c, key, src);
    CiphertextLength(c, key, src);
    PaddedShape(src);
    DecryptEncrypt(c, key, src);
    assert Sealed(c, key, src)[MAC..] == ct && Sealed(c, key, src)[..MAC] == c.hmac(key, ct);
  }

  /** What opens is exactly a tag over a non-empty whole number of blocks, in front of them: any other tag
      is refused. */
  lemma {:induction false} OpenedIff(c: Crypto, key: seq<u8>, tag: seq<u8>, ct: seq<u8>)
    requires Sound(c) && |tag| == 2
    ensures Opened(c, key, tag + ct).Some? <==> tag == c.hmac(key, ct) && ct != [] && |ct| % 16 == 0
    ensures Opened(c, key, tag + ct).Some? ==> Opened(c, key, tag + ct).value == Plaintext(c, key, ct)
  {
    assert (tag + ct)[MAC..] == ct && (tag + ct)[..MAC] == tag;
  }

  /** Each block of the ciphertext is the block cipher on the block of the padded source at its place. */
  lemma {:induction false} CiphertextBlocks(c: Crypto, key: seq<u8>, src: seq<u8>, k: nat)
    requires Sound(c) && 16 * k + 16 <= |Padded(src)|
    ensures |Ciphertext(c, key, src)| == |Padded(src)|
    ensures Ciphertext(c, key, src)[16 * k..16 * k + 16] == c.enc(key, Padded(src)[16 * k..16 * k + 16])
    decreases |src|
  {
    CiphertextLength(c, key, src);
    if |src| < BLOCK {
      assert k == 0;
      assert Padded(src)[0..16] == Padded(src);
      assert Ciphertext(c, key, src)[0..16] == Ciphertext(c, key, src);
    } else {
      var rest := src[BLOCK..];
      var e, ct, pt := c.enc(key, src[..BLOCK]), Ciphertext(c, key, rest), Padded(rest);
      if k == 0 {
        assert (e + ct)[0..16] == e && Padded(src)[0..16] == src[..BLOCK];
      } else {
        CiphertextBlocks(c, key, rest, k - 1);
        Behind(e, ct, 16 * (k - 1));
        Behind(src[..BLOCK], pt, 16 * (k - 1));
      }
    }
  }

  lemma Behind(front: seq<u8>, rest: seq<u8>, i: nat)
    requires |front| == 16 && i + 16 <= |rest|
    ensures (front + rest)[i + 16..i + 32] == rest[i..i + 16]
  {}
}
