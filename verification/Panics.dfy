// packet/packet.go: where a Go slice expression runs out of range. Nothing in the
// library recovers from such a panic, so it ends the process.
module Panics {
  import opened Bytes
  import opened Wire
  import opened Attributes
  import opened Walks
  import opened Serialize
  import opened Packet
  import opened Exchange

  lemma {:induction false} SerializeNeverPanics(md5: Hash, code: byte, auth: Block, secret: bytes, attrs: seq<Attribute>)
    ensures SerializeAttributes(md5, code, auth, secret, attrs) != Err(RuntimePanic)
  {
    if attrs != [] {
      SerializeNeverPanics(md5, code, auth, secret, attrs[..|attrs| - 1]);
    }
  }

  // The first Message-Authenticator and all that follows it take fewer octets than
  // header and signature need.
  predicate Overruns(attrs: seq<Attribute>) {
    MAOffset(attrs).Some? && MAOffset(attrs).value + 18 > |Encode(attrs)|
  }

  lemma OverrunsFrom(attrs: seq<Attribute>)
    ensures (var k := FirstMA(attrs); Overruns(attrs) <==> k < |attrs| && |Encode(attrs[k..])| < 18)
  {
    var k := FirstMA(attrs);
    EncodeAppend(attrs[..k], attrs[k..]);
    assert attrs == attrs[..k] + attrs[k..];
  }

  // The same of the attributes as the caller set them.
  predicate WireOverruns(code: byte, attrs: seq<Attribute>) {
    FirstMA(attrs) < |attrs| && WireLength(code, attrs[FirstMA(attrs)..]) < 18
  }

  lemma WireOverrunsIff(md5: Hash, code: byte, auth: Block, secret: bytes, attrs: seq<Attribute>)
    ensures Overruns(WireList(md5, code, auth, secret, attrs)) <==> WireOverruns(code, attrs)
  {
    var k := FirstMA(attrs);
    SameMAs(md5, code, auth, secret, attrs);
    OverrunsFrom(WireList(md5, code, auth, secret, attrs));
    WireTail(md5, code, auth, secret, attrs, k);
    WireLengthIs(md5, code, auth, secret, attrs[k..]);
  }

  // What the guards of Marshal ask.
  ghost predicate Emittable(m: Message, secret: bytes) {
    && secret != [] && IsValidCode(m.code) && Marshalable(m.code, m.attrs)
    && 20 + WireLength(m.code, m.attrs) <= MaxLengthForCode(m.code)
  }

  // Whatever the digests, Marshal panics exactly when a packet that passes all its
  // guards overruns its section; on all other packets that pass it succeeds.
  lemma MarshalPanicsIff(md5: Hash, hmac: Mac, m: Message, secret: bytes)
    ensures Marshaled(md5, hmac, m, secret) == Err(RuntimePanic)
       <==> Emittable(m, secret) && WireOverruns(m.code, m.attrs)
    ensures Marshaled(md5, hmac, m, secret).Ok?
       <==> Emittable(m, secret) && !WireOverruns(m.code, m.attrs)
  {
    SerializeNeverPanics(md5, m.code, m.auth, secret, m.attrs);
    WireLengthIs(md5, m.code, m.auth, secret, m.attrs);
    WireOverrunsIff(md5, m.code, m.auth, secret, m.attrs);
    if secret != [] {
      SerializeExactly(md5, m.code, m.auth, secret, m.attrs);
    }
  }

  // The smallest one: an empty Message-Authenticator and nothing else.
  lemma EmptyMAPanics(md5: Hash, hmac: Mac, m: Message, secret: bytes)
    requires secret != [] && IsValidCode(m.code) && m.attrs == [Attribute(MESSAGE_AUTHENTICATOR, [])]
    ensures Marshaled(md5, hmac, m, secret) == Err(RuntimePanic)
  {
    assert m.attrs[1..] == [] && m.attrs[0..] == m.attrs;
    assert WireLength(m.code, m.attrs) == 2 + WireValueLength(m.code, m.attrs[0]) + WireLength(m.code, m.attrs[1..]);
    MarshalPanicsIff(md5, hmac, m, secret);
  }

  lemma UnmarshalNeverPanics(data: bytes)
    ensures DecodeAll(data) != Err(RuntimePanic)
    decreases |data|
  {
    if UnmarshalAttribute(data).Ok? {
      UnmarshalNeverPanics(UnmarshalAttribute(data).value.1);
    }
  }

  lemma FindNeverPanics(body: bytes)
    ensures FindMA(body) != Err(RuntimePanic)
    decreases |body|
  {
    if UnmarshalAttribute(body).Ok? && body[0] != MESSAGE_AUTHENTICATOR {
      FindNeverPanics(body[body[1]..]);
    }
  }

  // Called on their own, the two checks panic exactly on a Length below 20 ...
  lemma CheckPanicsIff(md5: Hash, hmac: Mac, raw: bytes, requestAuth: Block, secret: bytes)
    ensures VerifyResponseAuthenticator(md5, raw, requestAuth, secret) == Err(RuntimePanic)
       <==> |raw| >= 20 && IsResponseCode(raw[0]) && Uint16(raw[2..4]) < 20
    ensures VerifyMessageAuthenticator(hmac, raw, requestAuth, secret) == Err(RuntimePanic)
       <==> |raw| >= 20 && Uint16(raw[2..4]) < 20
  {
    if |raw| >= 20 && 20 <= Uint16(raw[2..4]) <= |raw| {
      FindNeverPanics(raw[20..Uint16(raw[2..4])]);
    }
  }

  // ... but neither reading a packet nor verifying a reply ever does.
  lemma ReadersNeverPanic(md5: Hash, hmac: Mac, raw: bytes, id: byte, requestAuth: Block, secret: bytes)
    ensures Unmarshaled(md5, raw, secret) != Err(RuntimePanic)
    ensures VerifyResponse(md5, hmac, raw, id, requestAuth, secret) != Err(RuntimePanic)
  {
    if |raw| >= 20 && 20 <= Uint16(raw[2..4]) <= |raw| {
      UnmarshalNeverPanics(raw[20..Uint16(raw[2..4])]);
    }
    CheckPanicsIff(md5, hmac, raw, requestAuth, secret);
  }
}
