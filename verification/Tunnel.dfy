// crypto/tunnel.go and the key wrapping of crypto/mppe.go: salted hiding of a
// length-prefixed payload (section 3.5 of RFC 2868, section 2.4.2 of RFC 2548).
module Tunnel {
  import opened Bytes
  import opened Chain

  const TUNNEL_PASSWORD_MAX_LENGTH := 239
  const MPPE_KEY_MAX_LENGTH := 239

  // ----- what the code computes -----

  function SaltedPaddingLength(n: nat): (p: nat)
    ensures p < 16 && (1 + n + p) % 16 == 0
  {
    (1 + n + 15) / 16 * 16 - (1 + n)
  }

  // Data-Length, payload, padding; byte(len) keeps the low eight bits.
  function Framed(payload: bytes, padding: bytes): (f: bytes)
    ensures |f| == 1 + |payload| + |padding|
  {
    [(|payload| % 256) as byte] + payload + padding
  }

  function EncryptSalted(md5: Hash, payload: bytes, requestAuth: Block, secret: bytes, salt: bytes, padding: bytes): bytes
    requires (1 + |payload| + |padding|) % 16 == 0
  {
    salt + Hide(md5, secret, requestAuth + salt, Framed(payload, padding))
  }

  function Unframe(plain: bytes): Result<bytes>
    requires plain != []
  {
    var n := plain[0] as int;
    if n > |plain| - 1 then Err(InvalidAttribute) else Ok(plain[1..1 + n])
  }

  function DecryptSalted(md5: Hash, value: bytes, requestAuth: Block, secret: bytes): Result<bytes> {
    if secret == [] then Err(SecretEmpty)
    else if |value| < 3 || (|value| - 2) % 16 != 0 then Err(InvalidAttribute)
    else Unframe(Unhide(md5, secret, requestAuth + value[..2], value[2..]))
  }

  // The random salt with its most significant bit set, as section 3.5 of RFC 2868 demands.
  function MarkSalt(r0: byte, r1: byte): (salt: bytes)
    ensures |salt| == 2 && salt[0] >= 128
  {
    [if r0 < 128 then r0 + 128 else r0, r1]
  }

  // Randomness is an argument: two salt octets, and padding of the right length.
  function EncryptTunnelPassword(md5: Hash, password: bytes, requestAuth: Block, secret: bytes,
                                 r0: byte, r1: byte, padding: bytes): Result<bytes>
    requires |padding| == SaltedPaddingLength(|password|)
  {
    if secret == [] then Err(SecretEmpty)
    else if |password| > TUNNEL_PASSWORD_MAX_LENGTH then Err(PasswordTooLong)
    else Ok(EncryptSalted(md5, password, requestAuth, secret, MarkSalt(r0, r1), padding))
  }

  function EncryptMPPEKey(md5: Hash, key: bytes, requestAuth: Block, secret: bytes,
                          r0: byte, r1: byte, padding: bytes): Result<bytes>
    requires |padding| == SaltedPaddingLength(|key|)
  {
    if secret == [] then Err(SecretEmpty)
    else if |key| > MPPE_KEY_MAX_LENGTH then Err(InvalidAttribute)
    else Ok(EncryptSalted(md5, key, requestAuth, secret, MarkSalt(r0, r1), padding))
  }

  // ----- the loops -----

  method HideBlocks(md5: Hash, plaintext: bytes, requestAuth: Block, secret: bytes, salt: bytes) returns (r: bytes)
    requires Aligned(plaintext) && plaintext != []
    ensures r == Hide(md5, secret, requestAuth + salt, plaintext)
  {
    var ciphertext := new byte[|plaintext|](_ => 0);
    ghost var seed: bytes := requestAuth + salt;
    Assoc(secret, requestAuth, salt);
    var prev := md5(secret + requestAuth + salt);
    assert ciphertext[..0] == Hide(md5, secret, seed, plaintext[..0]);
    HideBlockInto(md5, secret, seed, plaintext, ciphertext, 0, prev);
    for n := 1 to |plaintext| / 16
      invariant 16 * n <= ciphertext.Length && (16 * n) % 16 == 0
      invariant ciphertext[..16 * n] == Hide(md5, secret, seed, plaintext[..16 * n])
    {
      var i := 16 * n;
      BlockBounds(n, |plaintext|);
      prev := md5(secret + ciphertext[i - 16..i]);
      HideBlockInto(md5, secret, seed, plaintext, ciphertext, i, prev);
    }
    assert plaintext[..|plaintext|] == plaintext;
    return ciphertext[..];
  }

  method UnhideBlocks(md5: Hash, body: bytes, requestAuth: Block, secret: bytes, salt: bytes) returns (r: bytes)
    requires Aligned(body) && body != []
    ensures r == Unhide(md5, secret, requestAuth + salt, body)
  {
    var plaintext := new byte[|body|](_ => 0);
    ghost var seed: bytes := requestAuth + salt;
    Assoc(secret, requestAuth, salt);
    var prev := md5(secret + requestAuth + salt);
    UnhideBlockInto(md5, secret, seed, body, plaintext, 0, prev);
    for n := 1 to |body| / 16
      invariant 16 * n <= plaintext.Length && (16 * n) % 16 == 0
      invariant plaintext[..16 * n] == Unhide(md5, secret, seed, body[..16 * n])
    {
      var i := 16 * n;
      BlockBounds(n, |body|);
      prev := md5(secret + body[i - 16..i]);
      UnhideBlockInto(md5, secret, seed, body, plaintext, i, prev);
    }
    assert body[..|body|] == body;
    return plaintext[..];
  }

  method EncryptSaltedPasswordWithPadding(md5: Hash, payload: bytes, requestAuth: Block, secret: bytes,
                                          salt: bytes, padding: bytes)
    returns (r: bytes)
    requires |padding| == SaltedPaddingLength(|payload|)
    ensures r == EncryptSalted(md5, payload, requestAuth, secret, salt, padding)
  {
    var plaintext := Framed(payload, padding);
    var ciphertext := HideBlocks(md5, plaintext, requestAuth, secret, salt);
    return salt + ciphertext;
  }

  method DecryptSaltedAttribute(md5: Hash, value: bytes, requestAuth: Block, secret: bytes) returns (r: Result<bytes>)
    ensures r == DecryptSalted(md5, value, requestAuth, secret)
  {
    if |secret| == 0 {
      return Err(SecretEmpty);
    }
    if |value| < 3 {
      return Err(InvalidAttribute);
    }
    var salt, body := value[..2], value[2..];
    if |body| == 0 || |body| % 16 != 0 {
      return Err(InvalidAttribute);
    }
    var plaintext := UnhideBlocks(md5, body, requestAuth, secret, salt);
    var dataLen := plaintext[0] as int;
    if dataLen > |plaintext| - 1 {
      return Err(InvalidAttribute);
    }
    return Ok(plaintext[1..1 + dataLen]);
  }

  // ----- round trips -----

  lemma UnframeFramed(payload: bytes, padding: bytes)
    ensures Unframe(Framed(payload, padding)) == Ok(payload[..|payload| % 256])
  {
    var f, n := Framed(payload, padding), |payload| % 256;
    assert f[1..1 + n] == payload[..n];
  }

  // Whatever the salt and the padding are, what comes back is cut to the eight
  // bits of Data-Length.
  lemma SaltedRoundTrip(md5: Hash, payload: bytes, requestAuth: Block, secret: bytes, salt: bytes, padding: bytes)
    requires secret != [] && |salt| == 2 && (1 + |payload| + |padding|) % 16 == 0
    ensures DecryptSalted(md5, EncryptSalted(md5, payload, requestAuth, secret, salt, padding), requestAuth, secret)
         == Ok(payload[..|payload| % 256])
  {
    var framed := Framed(payload, padding);
    var cipher := Hide(md5, secret, requestAuth + salt, framed);
    assert (salt + cipher)[..2] == salt && (salt + cipher)[2..] == cipher;
    UnhideHide(md5, secret, requestAuth + salt, framed);
    UnframeFramed(payload, padding);
  }

  lemma SaltedRoundTripIff(md5: Hash, payload: bytes, requestAuth: Block, secret: bytes, salt: bytes, padding: bytes)
    requires secret != [] && |salt| == 2 && (1 + |payload| + |padding|) % 16 == 0
    ensures DecryptSalted(md5, EncryptSalted(md5, payload, requestAuth, secret, salt, padding), requestAuth, secret) == Ok(payload)
       <==> |payload| < 256
  {
    SaltedRoundTrip(md5, payload, requestAuth, secret, salt, padding);
    if |payload| < 256 {
      assert payload[..|payload|] == payload;
    }
  }

  // The 239-octet limit is exactly what a 253-octet attribute value has room for.
  lemma SaltedFitsIff(md5: Hash, payload: bytes, requestAuth: Block, secret: bytes, salt: bytes, padding: bytes)
    requires |salt| == 2 && |padding| == SaltedPaddingLength(|payload|)
    ensures |EncryptSalted(md5, payload, requestAuth, secret, salt, padding)| <= 253 <==> |payload| <= TUNNEL_PASSWORD_MAX_LENGTH
  {
    var n := 1 + |payload| + |padding|;
    assert n % 16 == 0;
    if |payload| <= 239 {
      assert n < 256;
    } else {
      assert n >= 241;
    }
  }

  lemma Reframed(plain: bytes)
    requires plain != [] && Unframe(plain).Ok?
    ensures (var p := Unframe(plain).value;
             |p| < 256 && plain == Framed(p, plain[1 + |p|..]))
  {
  }

  lemma DecryptedShape(md5: Hash, value: bytes, requestAuth: Block, secret: bytes) returns (padding: bytes)
    requires DecryptSalted(md5, value, requestAuth, secret).Ok?
    ensures (var payload := DecryptSalted(md5, value, requestAuth, secret).value;
             |payload| < 256 && (1 + |payload| + |padding|) % 16 == 0
             && value == EncryptSalted(md5, payload, requestAuth, secret, value[..2], padding))
  {
    var seed := requestAuth + value[..2];
    var plain := Unhide(md5, secret, seed, value[2..]);
    Reframed(plain);
    HideUnhide(md5, secret, seed, value[2..]);
    SplitAt2(value);
    padding := plain[1 + plain[0] as int..];
  }

  lemma SplitAt2(value: bytes)
    requires |value| >= 2
    ensures value == value[..2] + value[2..]
  {
  }

  predicate Seals(md5: Hash, value: bytes, requestAuth: Block, secret: bytes, payload: bytes, padding: bytes)
    requires |value| >= 2
  {
    (1 + |payload| + |padding|) % 16 == 0
    && value == EncryptSalted(md5, payload, requestAuth, secret, value[..2], padding)
  }

  // Decryption accepts exactly the salted encryptions of payloads below 256 octets
  // (with padding of any aligned length), and says which payload it was.
  lemma DecryptAcceptsIff(md5: Hash, value: bytes, requestAuth: Block, secret: bytes, payload: bytes)
    requires secret != []
    ensures DecryptSalted(md5, value, requestAuth, secret) == Ok(payload)
       <==> (|value| >= 2 && |payload| < 256
             && exists padding: bytes :: Seals(md5, value, requestAuth, secret, payload, padding))
  {
    if DecryptSalted(md5, value, requestAuth, secret) == Ok(payload) {
      var padding := DecryptedShape(md5, value, requestAuth, secret);
      assert Seals(md5, value, requestAuth, secret, payload, padding);
    }
    if |value| >= 2 && |payload| < 256 {
      forall padding: bytes | Seals(md5, value, requestAuth, secret, payload, padding)
        ensures DecryptSalted(md5, value, requestAuth, secret) == Ok(payload)
      {
        SaltedRoundTripIff(md5, payload, requestAuth, secret, value[..2], padding);
      }
    }
  }

  // Every accepted tunnel password fits an attribute, marks its salt and comes back whole.
  lemma TunnelPasswordRoundTrip(md5: Hash, password: bytes, requestAuth: Block, secret: bytes,
                                r0: byte, r1: byte, padding: bytes)
    requires |padding| == SaltedPaddingLength(|password|)
    requires secret != [] && |password| <= TUNNEL_PASSWORD_MAX_LENGTH
    ensures (var value := EncryptTunnelPassword(md5, password, requestAuth, secret, r0, r1, padding);
             value.Ok? && 18 <= |value.value| <= 242 && value.value[0] >= 128
             && DecryptSalted(md5, value.value, requestAuth, secret) == Ok(password))
  {
    var salt := MarkSalt(r0, r1);
    SaltedRoundTripIff(md5, password, requestAuth, secret, salt, padding);
    PaddedSize(|password|);
  }

  lemma PaddedSize(n: nat)
    requires n <= 239
    ensures 16 <= 1 + n + SaltedPaddingLength(n) <= 240
  {
    var total := 1 + n + SaltedPaddingLength(n);
    assert total % 16 == 0 && total < 256;
  }

  // The value of a Tunnel-Password or MPPE key: the salt, its top bit set and all others as
  // they were drawn, then the hidden blocks of length octet, payload and padding. The
  // first one is hidden under secret, Request Authenticator and salt, every other one
  // under the block before it (section 3.5 of RFC 2868).
  lemma SaltedEquation(md5: Hash, payload: bytes, requestAuth: Block, secret: bytes, r0: byte, r1: byte, padding: bytes, i: nat)
    requires secret != [] && |payload| <= 239 && |padding| == SaltedPaddingLength(|payload|)
    requires 16 * i < 1 + |payload| + |padding|
    ensures EncryptTunnelPassword(md5, payload, requestAuth, secret, r0, r1, padding).Ok?
    ensures (var v := EncryptTunnelPassword(md5, payload, requestAuth, secret, r0, r1, padding).value;
             var plain, c := [|payload| as byte] + payload + padding, v[2..];
             |c| == |plain| && v[0] as int == 128 + r0 as int % 128 && v[1] == r1
             && c[16 * i..16 * i + 16]
                == XorBlock(plain[16 * i..16 * i + 16],
                            md5(secret + if i == 0 then requestAuth + v[..2] else c[16 * i - 16..16 * i])))
  {
    var salt, plain := MarkSalt(r0, r1), Framed(payload, padding);
    BlockEquation(md5, secret, requestAuth + salt, plain, i);
    var v := EncryptTunnelPassword(md5, payload, requestAuth, secret, r0, r1, padding).value;
    assert v[..2] == salt && v[2..] == Hide(md5, secret, requestAuth + salt, plain);
  }

  // ----- the optional tag -----

  function EncodeTunnelTag(tag: byte): (byte, bool) {
    if tag == 0 || tag > 0x1F then (0, false) else (tag, true)
  }

  function DecodeTunnelTag(value: bytes): (byte, bool, bytes) {
    if |value| > 0 && 0x01 <= value[0] <= 0x1F then (value[0], true, value[1..]) else (0, false, value)
  }

  function WithTag(tag: byte, value: bytes): bytes {
    if EncodeTunnelTag(tag).1 then [EncodeTunnelTag(tag).0] + value else value
  }

  function PutUint32(n: nat): (b: bytes)
    requires n < 0x1_0000_0000
    ensures |b| == 4
  {
    PutUint16(n / 0x1_0000) + PutUint16(n % 0x1_0000)
  }

  function Uint32(b: bytes): nat
    requires |b| == 4
  {
    Uint16(b[..2]) * 0x1_0000 + Uint16(b[2..])
  }

  lemma Uint32RoundTrip(n: nat)
    requires n < 0x1_0000_0000
    ensures Uint32(PutUint32(n)) == n
    ensures PutUint32(n)[0] as int == n / 0x100_0000
  {
    var b := PutUint32(n);
    assert b[..2] == PutUint16(n / 0x1_0000) && b[2..] == PutUint16(n % 0x1_0000);
  }

  function EncodeTunnelInteger(tag: byte, n: nat): bytes
    requires n < 0x1_0000_0000
  {
    WithTag(tag, PutUint32(n))
  }

  function DecodeTunnelInteger(value: bytes): Result<(byte, bool, nat)> {
    var (tag, hasTag, payload) := DecodeTunnelTag(value);
    if |payload| != 4 then Err(InvalidAttribute) else Ok((tag, hasTag, Uint32(payload)))
  }

  // A tag, present or absent, is read back exactly when it was written, or when the
  // value does not itself start like a tag.
  lemma TagRoundTripIff(tag: byte, value: bytes)
    ensures WithTag(tag, value) == if 0x01 <= tag <= 0x1F then [tag] + value else value
    ensures DecodeTunnelTag(WithTag(tag, value)) == (if 0x01 <= tag <= 0x1F then (tag, true, value) else (0, false, value))
       <==> (0x01 <= tag <= 0x1F || value == [] || !(0x01 <= value[0] <= 0x1F))
  {
    assert ([tag] + value)[1..] == value;
  }

  // Because the salt is marked, a Tunnel-Password is never mistaken for a tagged one.
  lemma TunnelPasswordTagUnambiguous(md5: Hash, password: bytes, requestAuth: Block, secret: bytes,
                                     r0: byte, r1: byte, padding: bytes, tag: byte)
    requires |padding| == SaltedPaddingLength(|password|)
    requires secret != [] && |password| <= TUNNEL_PASSWORD_MAX_LENGTH
    ensures (var value := EncryptTunnelPassword(md5, password, requestAuth, secret, r0, r1, padding).value;
             DecodeTunnelTag(WithTag(tag, value)) == if 0x01 <= tag <= 0x1F then (tag, true, value) else (0, false, value))
  {
    TunnelPasswordRoundTrip(md5, password, requestAuth, secret, r0, r1, padding);
    TagRoundTripIff(tag, EncryptTunnelPassword(md5, password, requestAuth, secret, r0, r1, padding).value);
  }

  // An untagged integer whose high octet looks like a tag is refused; every other
  // tunnel integer comes back.
  lemma TunnelIntegerRoundTripIff(tag: byte, n: nat)
    requires n < 0x1_0000_0000
    ensures DecodeTunnelInteger(EncodeTunnelInteger(tag, n)) == Ok(if 0x01 <= tag <= 0x1F then (tag, true, n) else (0, false, n))
       <==> (0x01 <= tag <= 0x1F || !(0x01 <= n / 0x100_0000 <= 0x1F))
    ensures |EncodeTunnelInteger(tag, n)| == if 0x01 <= tag <= 0x1F then 5 else 4
  {
    Uint32RoundTrip(n);
    TagRoundTripIff(tag, PutUint32(n));
  }
}
