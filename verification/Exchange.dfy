// What an honest exchange guarantees, and what an accepted reply proves.
module Exchange {
  import opened Bytes
  import opened Wire
  import opened Crypto
  import opened Attributes
  import opened Walks
  import opened Serialize
  import opened Packet

  // ----- reading back a signed body -----

  lemma PatchedDecodes(ws: seq<Attribute>, v: Block)
    requires AllFit(ws) && RoomForMA(ws)
    ensures MAOffset(ws).Some? ==> MAOffset(ws).value + 18 <= |Encode(ws)|
    ensures DecodeAll(Patched(Encode(ws), MAOffset(ws), v)) == Ok(SetMA(ws, v))
    ensures FindMA(Patched(Encode(ws), MAOffset(ws), v)) == Ok(MAOffset(ws))
  {
    FindEncode(ws);
    SetMAFits(ws, v);
    DecodeEncode(SetMA(ws, v));
    FindEncode(SetMA(ws, v));
    if HasMA(ws) {
      OverwriteIsSetMA(ws, v);
    }
  }

  // What Marshal computes, and what the two walks read in it.
  lemma MarshaledDecodes(md5: Hash, hmac: Mac, m: Message, secret: bytes)
    requires RoomForMA(m.attrs) && Marshaled(md5, hmac, m, secret).Ok?
    ensures secret != [] && IsValidCode(m.code)
    ensures SerializeAttributes(md5, m.code, m.auth, secret, m.attrs).Ok?
    ensures (var s := SerializeAttributes(md5, m.code, m.auth, secret, m.attrs).value;
             var ws := WireList(md5, m.code, m.auth, secret, m.attrs);
             RoomAt(s) && 20 + |s.body| <= MaxLengthForCode(m.code) && RoomForMA(ws)
             && Marshaled(md5, hmac, m, secret) == Ok(Signed(md5, hmac, m, s, secret))
             && DecodeAll(SignedBody(md5, hmac, m, s, secret)) == Ok(SetMA(ws, MACOf(md5, hmac, m, s, secret)))
             && FindMA(SignedBody(md5, hmac, m, s, secret)) == Ok(s.off)
             && (s.off.Some? <==> HasMA(m.attrs)))
  {
    SerializeExactly(md5, m.code, m.auth, secret, m.attrs);
    SameMAs(md5, m.code, m.auth, secret, m.attrs);
    var s := SerializeAttributes(md5, m.code, m.auth, secret, m.attrs).value;
    PatchedDecodes(WireList(md5, m.code, m.auth, secret, m.attrs), MACOf(md5, hmac, m, s, secret));
  }

  lemma SignedParts(md5: Hash, hmac: Mac, m: Message, s: Section, secret: bytes)
    requires RoomAt(s)
    ensures (var raw := Signed(md5, hmac, m, s, secret);
             |raw| == 20 + |s.body| && raw[0] == m.code && raw[1] == m.id && Uint16(raw[2..4]) == |raw|
             && raw[4..20] == SentAuthenticator(md5, hmac, m, s, secret)
             && raw[20..] == SignedBody(md5, hmac, m, s, secret)
             && (IsResponseCode(m.code) ==>
                   ResponseAuthenticator(md5, raw[0], raw[1], |raw|, m.auth, raw[20..], secret) == raw[4..20]))
  {
    FrameParts(m.code, m.id, 20 + |s.body|, SentAuthenticator(md5, hmac, m, s, secret),
               SignedBody(md5, hmac, m, s, secret));
  }

  lemma StructureAt(raw: bytes, attrs: seq<Attribute>)
    requires 20 <= |raw| <= MaxLengthForCode(raw[0]) && IsValidCode(raw[0])
    requires Uint16(raw[2..4]) == |raw| && DecodeAll(raw[20..]) == Ok(attrs)
    ensures Structure(raw) == Ok(Message(raw[0], raw[1], raw[4..20], attrs))
  {
    assert raw[20..|raw|] == raw[20..];
  }

  // ----- the Message-Authenticator check -----

  lemma MACInputOfFrame(code: byte, id: byte, length: nat, auth: Block, body: bytes, off: nat, requestAuth: Block)
    requires length < 0x1_0000 && off + 18 <= |body|
    ensures (var raw := Frame(code, id, length, auth, body);
             MACInput(raw, 20 + off, requestAuth)
             == Frame(code, id, length, if IsRequestCode(code) then auth else requestAuth,
                      Overwrite(body, off + 2, Zeros(16)))
             && raw[20 + off + 2..20 + off + 18] == body[off + 2..off + 18])
  {
    WriteBody(code, id, length, auth, body, off + 2, Zeros(16));
    WriteAuthenticator(code, id, length, auth, Overwrite(body, off + 2, Zeros(16)), requestAuth);
    FrameParts(code, id, length, auth, body);
    assert Frame(code, id, length, auth, body)[20..][off + 2..off + 18] == body[off + 2..off + 18];
  }

  lemma MACCheckAt(hmac: Mac, raw: bytes, off: nat, requestAuth: Block, secret: bytes)
    requires 20 + off + 18 <= |raw| && Uint16(raw[2..4]) == |raw| && FindMA(raw[20..]) == Ok(Some(off))
    ensures VerifyMessageAuthenticator(hmac, raw, requestAuth, secret)
         == if hmac(secret, MACInput(raw, 20 + off, requestAuth)) == raw[20 + off + 2..20 + off + 18]
            then Ok(()) else Err(MessageAuthenticatorMismatch)
  {
    assert raw[20..|raw|] == raw[20..];
  }

  // The check, on a frame without trailing octets.
  lemma MACCheckOfFrame(hmac: Mac, code: byte, id: byte, auth: Block, body: bytes, off: nat, requestAuth: Block, secret: bytes)
    requires off + 18 <= |body| && FindMA(body) == Ok(Some(off)) && 20 + |body| < 0x1_0000
    ensures VerifyMessageAuthenticator(hmac, Frame(code, id, 20 + |body|, auth, body), requestAuth, secret)
         == if hmac(secret, Frame(code, id, 20 + |body|, if IsRequestCode(code) then auth else requestAuth,
                                  Overwrite(body, off + 2, Zeros(16))))
               == body[off + 2..off + 18]
            then Ok(()) else Err(MessageAuthenticatorMismatch)
  {
    FrameParts(code, id, 20 + |body|, auth, body);
    MACInputOfFrame(code, id, 20 + |body|, auth, body, off, requestAuth);
    MACCheckAt(hmac, Frame(code, id, 20 + |body|, auth, body), off, requestAuth, secret);
  }

  lemma MACCheckPasses(hmac: Mac, raw: bytes, code: byte, id: byte, auth: Block, body: bytes, off: nat, requestAuth: Block,
                       secret: bytes, covered: Block)
    requires off + 18 <= |body| && FindMA(body) == Ok(Some(off)) && 20 + |body| < 0x1_0000
    requires raw == Frame(code, id, 20 + |body|, auth, body)
    requires covered == if IsRequestCode(code) then auth else requestAuth
    requires hmac(secret, Frame(code, id, 20 + |body|, covered, Overwrite(body, off + 2, Zeros(16)))) == body[off + 2..off + 18]
    ensures VerifyMessageAuthenticator(hmac, raw, requestAuth, secret) == Ok(())
  {
    MACCheckOfFrame(hmac, code, id, auth, body, off, requestAuth, secret);
  }

  lemma SignedValue(md5: Hash, hmac: Mac, m: Message, s: Section, secret: bytes)
    requires RoomAt(s) && s.off.Some?
    ensures (var body, at := SignedBody(md5, hmac, m, s, secret), s.off.value + 2;
             var cleared := Patched(s.body, s.off, Zeros(16));
             Overwrite(body, at, Zeros(16)) == cleared
             && body[at..at + 16] == hmac(secret, Frame(m.code, m.id, 20 + |body|, RequestAuthenticator(md5, m, cleared, secret), cleared)))
  {
    OverwriteTwice(s.body, s.off.value + 2, MACOf(md5, hmac, m, s, secret), Zeros(16));
  }

  // The authenticator under the HMAC is the one the receiver puts there.
  lemma SignedCovers(md5: Hash, hmac: Mac, m: Message, s: Section, secret: bytes, requestAuth: Block) returns (covered: Block)
    requires RoomAt(s) && s.off.Some? && IsValidCode(m.code) && (IsResponseCode(m.code) ==> requestAuth == m.auth)
    ensures covered == if IsRequestCode(m.code) then SentAuthenticator(md5, hmac, m, s, secret) else requestAuth
    ensures (var body, at := SignedBody(md5, hmac, m, s, secret), s.off.value + 2;
             hmac(secret, Frame(m.code, m.id, 20 + |body|, covered, Overwrite(body, at, Zeros(16)))) == body[at..at + 16])
  {
    covered := RequestAuthenticator(md5, m, Patched(s.body, s.off, Zeros(16)), secret);
    SignedValue(md5, hmac, m, s, secret);
  }

  // The value Marshal wrote passes it.
  lemma SignedPassesMACCheck(md5: Hash, hmac: Mac, m: Message, s: Section, secret: bytes, requestAuth: Block)
    requires RoomAt(s) && s.off.Some? && FindMA(SignedBody(md5, hmac, m, s, secret)) == Ok(s.off)
    requires IsValidCode(m.code)
    requires IsResponseCode(m.code) ==> requestAuth == m.auth
    ensures VerifyMessageAuthenticator(hmac, Signed(md5, hmac, m, s, secret), requestAuth, secret) == Ok(())
  {
    var covered := SignedCovers(md5, hmac, m, s, secret, requestAuth);
    MACCheckPasses(hmac, Signed(md5, hmac, m, s, secret), m.code, m.id, SentAuthenticator(md5, hmac, m, s, secret),
                   SignedBody(md5, hmac, m, s, secret), s.off.value, requestAuth, secret, covered);
  }

  // ----- replies -----

  lemma ReplyAcceptedAt(md5: Hash, hmac: Mac, raw: bytes, requestAuth: Block, attrs: seq<Attribute>, secret: bytes)
    requires 20 <= |raw| <= MaxLengthForCode(raw[0]) && IsResponseCode(raw[0])
    requires Uint16(raw[2..4]) == |raw| && DecodeAll(raw[20..]) == Ok(attrs)
    requires ResponseAuthenticator(md5, raw[0], raw[1], |raw|, requestAuth, raw[20..], secret) == raw[4..20]
    requires HasMA(attrs) ==> VerifyMessageAuthenticator(hmac, raw, requestAuth, secret) == Ok(())
    ensures VerifyResponse(md5, hmac, raw, raw[1], requestAuth, secret) == Ok(Message(raw[0], raw[1], raw[4..20], attrs))
  {
    StructureAt(raw, attrs);
    assert raw[20..|raw|] == raw[20..];
    assert VerifyResponseAuthenticator(md5, raw, requestAuth, secret) == Ok(());
  }

  lemma SignedReplyAccepted(md5: Hash, hmac: Mac, m: Message, s: Section, attrs: seq<Attribute>, secret: bytes)
    requires IsResponseCode(m.code) && RoomAt(s) && 20 + |s.body| <= MaxLengthForCode(m.code)
    requires DecodeAll(SignedBody(md5, hmac, m, s, secret)) == Ok(attrs)
    requires HasMA(attrs) ==> s.off.Some? && FindMA(SignedBody(md5, hmac, m, s, secret)) == Ok(s.off)
    ensures VerifyResponse(md5, hmac, Signed(md5, hmac, m, s, secret), m.id, m.auth, secret)
         == Ok(Message(m.code, m.id, SentAuthenticator(md5, hmac, m, s, secret), attrs))
  {
    if HasMA(attrs) {
      SignedPassesMACCheck(md5, hmac, m, s, secret, m.auth);
    }
    SignedParts(md5, hmac, m, s, secret);
    ReplyAcceptedAt(md5, hmac, Signed(md5, hmac, m, s, secret), m.auth, attrs, secret);
  }

  lemma NothingHidden(md5: Hash, code: byte, auth: Block, secret: bytes, attrs: seq<Attribute>)
    requires !FamilyOf(code).AccessReq?
    ensures WireList(md5, code, auth, secret, attrs) == attrs
  {
  }

  // Every reply with room for its signature is accepted by the client that sent
  // the matching request, and its attributes come back with only the
  // Message-Authenticator value filled in.
  lemma ReplyAccepted(md5: Hash, hmac: Mac, m: Message, secret: bytes)
    requires IsResponseCode(m.code) && RoomForMA(m.attrs) && Marshaled(md5, hmac, m, secret).Ok?
    ensures exists mac, auth: Block ::
              VerifyResponse(md5, hmac, Marshaled(md5, hmac, m, secret).value, m.id, m.auth, secret)
              == Ok(Message(m.code, m.id, auth, SetMA(m.attrs, mac)))
  {
    MarshaledDecodes(md5, hmac, m, secret);
    NothingHidden(md5, m.code, m.auth, secret, m.attrs);
    var s := SerializeAttributes(md5, m.code, m.auth, secret, m.attrs).value;
    var mac := MACOf(md5, hmac, m, s, secret);
    SetMAFits(m.attrs, mac);
    SignedReplyAccepted(md5, hmac, m, s, SetMA(m.attrs, mac), secret);
  }

  // ----- requests -----

  lemma RequestAcceptedAt(md5: Hash, raw: bytes, attrs: seq<Attribute>, secret: bytes)
    requires 20 <= |raw| <= MaxLengthForCode(raw[0]) && IsRequestCode(raw[0])
    requires Uint16(raw[2..4]) == |raw| && DecodeAll(raw[20..]) == Ok(attrs)
    ensures Unmarshaled(md5, raw, secret)
         == if IsSelfSigned(raw[0])
               && AccountingRequestAuthenticator(md5, raw[0], raw[1], |raw|, ZeroMA(raw[20..]), secret) != raw[4..20]
            then Err(AuthenticatorMismatch) else Ok(Message(raw[0], raw[1], raw[4..20], attrs))
  {
    StructureAt(raw, attrs);
    assert raw[20..|raw|] == raw[20..];
  }

  // The receiver zeroes the value exactly where the sender had zeroed it.
  lemma ZeroUndoesPatch(ws: seq<Attribute>, v: Block)
    requires AllFit(ws) && StandardMA(ws)
    ensures MAOffset(ws).Some? ==> MAOffset(ws).value + 18 <= |Encode(ws)|
    ensures ZeroMA(Patched(Encode(ws), MAOffset(ws), v)) == Patched(Encode(ws), MAOffset(ws), Zeros(16))
  {
    WalksAgree(ws);
    if HasMA(ws) {
      SetMAFits(ws, v);
      OverwriteIsSetMA(ws, v);
      WalksAgree(SetMA(ws, v));
      PatchedTwice(Encode(ws), MAOffset(ws), v, Zeros(16));
    }
  }

  lemma SignedRequestAccepted(md5: Hash, hmac: Mac, m: Message, s: Section, attrs: seq<Attribute>, secret: bytes)
    requires IsRequestCode(m.code) && RoomAt(s) && 20 + |s.body| <= MaxLengthForCode(m.code)
    requires DecodeAll(SignedBody(md5, hmac, m, s, secret)) == Ok(attrs)
    requires IsSelfSigned(m.code) ==>
               ZeroMA(SignedBody(md5, hmac, m, s, secret)) == Patched(s.body, s.off, Zeros(16))
    ensures Unmarshaled(md5, Signed(md5, hmac, m, s, secret), secret)
         == Ok(Message(m.code, m.id, SentAuthenticator(md5, hmac, m, s, secret), attrs))
  {
    SignedParts(md5, hmac, m, s, secret);
    RequestAcceptedAt(md5, Signed(md5, hmac, m, s, secret), attrs, secret);
  }

  // Every request is accepted by a server with the same secret: it reads the
  // Authenticator on the wire, the attributes with User-Password hidden, and a
  // Message-Authenticator that verifies.
  lemma RequestAccepted(md5: Hash, hmac: Mac, m: Message, secret: bytes, anyAuth: Block)
    requires IsRequestCode(m.code) && Marshaled(md5, hmac, m, secret).Ok?
    requires RoomForMA(m.attrs) && (IsSelfSigned(m.code) ==> StandardMA(m.attrs))
    ensures (var raw := Marshaled(md5, hmac, m, secret).value;
             var ws := WireList(md5, m.code, m.auth, secret, m.attrs);
             |raw| >= 20 && RoomForMA(ws)
             && (FamilyOf(m.code).AccessReq? ==> raw[4..20] == m.auth)
             && (exists mac: Block :: Unmarshaled(md5, raw, secret) == Ok(Message(m.code, m.id, raw[4..20], SetMA(ws, mac))))
             && (HasMA(m.attrs) ==> VerifyMessageAuthenticator(hmac, raw, anyAuth, secret) == Ok(())))
  {
    MarshaledDecodes(md5, hmac, m, secret);
    SerializeExactly(md5, m.code, m.auth, secret, m.attrs);
    SameMAs(md5, m.code, m.auth, secret, m.attrs);
    var s := SerializeAttributes(md5, m.code, m.auth, secret, m.attrs).value;
    var ws := WireList(md5, m.code, m.auth, secret, m.attrs);
    var mac := MACOf(md5, hmac, m, s, secret);
    if IsSelfSigned(m.code) {
      ZeroUndoesPatch(ws, mac);
    }
    SignedRequestAccepted(md5, hmac, m, s, SetMA(ws, mac), secret);
    SignedParts(md5, hmac, m, s, secret);
    if HasMA(m.attrs) {
      SignedPassesMACCheck(md5, hmac, m, s, secret, anyAuth);
    }
  }

  // ----- what the authenticators cover -----

  lemma ResponseDigestOfBuffer(md5: Hash, raw: bytes, requestAuth: Block, secret: bytes)
    requires |raw| >= 20 && Uint16(raw[2..4]) == |raw|
    ensures ResponseAuthenticator(md5, raw[0], raw[1], |raw|, requestAuth, raw[20..], secret)
         == md5(Overwrite(raw, 4, requestAuth) + secret)
    ensures AccountingRequestAuthenticator(md5, raw[0], raw[1], |raw|, raw[20..], secret)
         == md5(Overwrite(raw, 4, Zeros(16)) + secret)
  {
    FrameOf(raw);
    WriteAuthenticator(raw[0], raw[1], |raw|, raw[4..20], raw[20..], requestAuth);
    WriteAuthenticator(raw[0], raw[1], |raw|, raw[4..20], raw[20..], Zeros(16));
  }

  // Section 3 of RFC 2865: the authenticator of a reply is the digest of the whole
  // reply, with the Request Authenticator in its place, followed by the secret.
  lemma ReplyDigest(md5: Hash, hmac: Mac, m: Message, secret: bytes)
    requires IsResponseCode(m.code) && Marshaled(md5, hmac, m, secret).Ok?
    ensures (var raw := Marshaled(md5, hmac, m, secret).value;
             |raw| >= 20 && raw[4..20] == md5(Overwrite(raw, 4, m.auth) + secret))
  {
    SignedParts(md5, hmac, m, SerializeAttributes(md5, m.code, m.auth, secret, m.attrs).value, secret);
    ResponseDigestOfBuffer(md5, Marshaled(md5, hmac, m, secret).value, m.auth, secret);
  }

  // Section 3 of RFC 2866 and section 2.3 of RFC 5176: the authenticator of such a
  // request without a Message-Authenticator is the digest of the request with sixteen
  // zeros in its place, followed by the secret.
  lemma SelfSignedDigest(md5: Hash, hmac: Mac, m: Message, secret: bytes)
    requires IsSelfSigned(m.code) && !HasMA(m.attrs) && Marshaled(md5, hmac, m, secret).Ok?
    ensures (var raw := Marshaled(md5, hmac, m, secret).value;
             |raw| >= 20 && raw[4..20] == md5(Overwrite(raw, 4, Zeros(16)) + secret))
  {
    MarshaledDecodes(md5, hmac, m, secret);
    var s := SerializeAttributes(md5, m.code, m.auth, secret, m.attrs).value;
    SignedParts(md5, hmac, m, s, secret);
    ResponseDigestOfBuffer(md5, Marshaled(md5, hmac, m, secret).value, m.auth, secret);
  }

  // What the HMAC covers: the whole packet with the value itself zeroed and, in a reply, the
  // Request Authenticator in place of the digest.
  function Covered(raw: bytes, at: nat, requestAuth: Block): bytes
    requires |raw| >= 20 && at + 16 <= |raw|
  {
    var cleared := Overwrite(raw, at, Zeros(16));
    if raw[0] in {1, 4, 40, 43} then cleared else Overwrite(cleared, 4, requestAuth)
  }

  // The check passes exactly when the value is that HMAC.
  lemma VerifiedDigest(hmac: Mac, raw: bytes, off: nat, requestAuth: Block, secret: bytes)
    requires |raw| >= 20 && 20 + off + 18 <= |raw| && Uint16(raw[2..4]) == |raw| && FindMA(raw[20..]) == Ok(Some(off))
    ensures VerifyMessageAuthenticator(hmac, raw, requestAuth, secret).Ok?
       <==> raw[22 + off..38 + off] == hmac(secret, Covered(raw, 22 + off, requestAuth))
  {
    MACCheckAt(hmac, raw, off, requestAuth, secret);
  }

  // The value of the first Message-Authenticator starts at octet `at` and is that HMAC.
  ghost predicate DigestAt(hmac: Mac, raw: bytes, at: nat, requestAuth: Block, secret: bytes) {
    && 22 <= at && at + 16 <= |raw| && FindMA(raw[20..]) == Ok(Some(at - 22))
    && raw[at..at + 16] == hmac(secret, Covered(raw, at, requestAuth))
  }

  lemma SignedFrame(md5: Hash, hmac: Mac, m: Message, s: Section, secret: bytes)
    requires RoomAt(s)
    ensures (var raw := Signed(md5, hmac, m, s, secret);
             |raw| == 20 + |s.body| && Uint16(raw[2..4]) == |raw| && raw[20..] == SignedBody(md5, hmac, m, s, secret))
  {
    SignedParts(md5, hmac, m, s, secret);
  }

  lemma CheckedDigest(hmac: Mac, raw: bytes, body: bytes, off: nat, requestAuth: Block, secret: bytes)
    requires |raw| == 20 + |body| && Uint16(raw[2..4]) == |raw| && raw[20..] == body
    requires off + 18 <= |body| && FindMA(body) == Ok(Some(off))
    requires VerifyMessageAuthenticator(hmac, raw, requestAuth, secret) == Ok(())
    ensures DigestAt(hmac, raw, 22 + off, requestAuth, secret)
  {
    VerifiedDigest(hmac, raw, off, requestAuth, secret);
  }

  lemma SignedDigest(md5: Hash, hmac: Mac, m: Message, s: Section, secret: bytes, raw: bytes, body: bytes, off: nat)
    requires RoomAt(s) && IsValidCode(m.code) && s.off == Some(off)
    requires raw == Signed(md5, hmac, m, s, secret) && body == SignedBody(md5, hmac, m, s, secret)
    requires FindMA(body) == Ok(Some(off))
    ensures |raw| == 20 + |body| && DigestAt(hmac, raw, 22 + off, m.auth, secret)
  {
    SignedFrame(md5, hmac, m, s, secret);
    SignedPassesMACCheck(md5, hmac, m, s, secret, m.auth);
    CheckedDigest(hmac, raw, body, off, m.auth, secret);
  }

  lemma SignedSection(md5: Hash, hmac: Mac, m: Message, secret: bytes) returns (s: Section, body: bytes, off: nat)
    requires RoomForMA(m.attrs) && HasMA(m.attrs) && Marshaled(md5, hmac, m, secret).Ok?
    ensures RoomAt(s) && IsValidCode(m.code) && s.off == Some(off)
    ensures Marshaled(md5, hmac, m, secret).value == Signed(md5, hmac, m, s, secret)
    ensures body == SignedBody(md5, hmac, m, s, secret) && FindMA(body) == Ok(Some(off))
  {
    MarshaledDecodes(md5, hmac, m, secret);
    s := SerializeAttributes(md5, m.code, m.auth, secret, m.attrs).value;
    body, off := SignedBody(md5, hmac, m, s, secret), s.off.value;
  }

  // Section 3.2 of RFC 3579: the value of the Message-Authenticator is the HMAC, under the
  // secret, of what it covers.
  lemma MessageAuthenticatorDigest(md5: Hash, hmac: Mac, m: Message, secret: bytes) returns (at: nat)
    requires RoomForMA(m.attrs) && HasMA(m.attrs) && Marshaled(md5, hmac, m, secret).Ok?
    ensures DigestAt(hmac, Marshaled(md5, hmac, m, secret).value, at, m.auth, secret)
  {
    var s, body, off := SignedSection(md5, hmac, m, secret);
    SignedDigest(md5, hmac, m, s, secret, Marshaled(md5, hmac, m, secret).value, body, off);
    at := 22 + off;
  }

  // Octets 0 to 4 of all that Marshal emits.
  lemma MarshaledHeader(md5: Hash, hmac: Mac, m: Message, secret: bytes)
    requires Marshaled(md5, hmac, m, secret).Ok?
    ensures (var raw := Marshaled(md5, hmac, m, secret).value;
             20 <= |raw| <= (if m.code in {4, 5} then 4095 else 4096)
             && raw[0] == m.code && raw[1] == m.id && 256 * raw[2] as int + raw[3] as int == |raw|)
  {
    var s := SerializeAttributes(md5, m.code, m.auth, secret, m.attrs).value;
    SignedParts(md5, hmac, m, s, secret);
  }

  // ----- exactness -----

  // A buffer as the frame of its section, which has room for the value that verifies.
  lemma VerifiedSection(hmac: Mac, raw: bytes, s: Section, anyAuth: Block, secret: bytes)
    requires |raw| >= 20 && Uint16(raw[2..4]) == |raw| && s.body == raw[20..] && FindMA(s.body) == Ok(s.off)
    requires s.off.Some? ==> VerifyMessageAuthenticator(hmac, raw, anyAuth, secret).Ok?
    ensures RoomAt(s) && raw == Frame(raw[0], raw[1], 20 + |s.body|, raw[4..20], s.body)
  {
    FrameOf(raw);
    assert raw[20..|raw|] == raw[20..];
  }

  // A value that passes the check is the HMAC with itself zeroed.
  lemma CheckedMAC(hmac: Mac, code: byte, id: byte, auth: Block, body: bytes, off: nat, requestAuth: Block, secret: bytes,
                   covered: Block)
    requires off + 18 <= |body| && FindMA(body) == Ok(Some(off)) && 20 + |body| < 0x1_0000
    requires covered == if IsRequestCode(code) then auth else requestAuth
    requires VerifyMessageAuthenticator(hmac, Frame(code, id, 20 + |body|, auth, body), requestAuth, secret).Ok?
    ensures Overwrite(body, off + 2, hmac(secret, Frame(code, id, 20 + |body|, covered, Overwrite(body, off + 2, Zeros(16))))) == body
  {
    MACCheckOfFrame(hmac, code, id, auth, body, off, requestAuth, secret);
    OverwriteSame(body, off + 2, 16);
  }

  // The octets of an accepted Message-Authenticator are the ones Marshal would write.
  lemma AcceptedMAC(md5: Hash, hmac: Mac, m: Message, body: bytes, s: Section, sent: Block, secret: bytes, requestAuth: Block)
    requires RoomAt(s) && s.body == body && s.off.Some? && FindMA(body) == Ok(s.off)
    requires RequestAuthenticator(md5, m, Patched(body, s.off, Zeros(16)), secret)
          == if IsRequestCode(m.code) then sent else requestAuth
    requires VerifyMessageAuthenticator(hmac, Frame(m.code, m.id, 20 + |body|, sent, body), requestAuth, secret).Ok?
    ensures SignedBody(md5, hmac, m, s, secret) == body
  {
    CheckedMAC(hmac, m.code, m.id, sent, body, s.off.value, requestAuth, secret,
               RequestAuthenticator(md5, m, Patched(body, s.off, Zeros(16)), secret));
  }

  // A well-formed attribute section serializes to itself where nothing is hidden.
  lemma SerializeDecoded(md5: Hash, code: byte, auth: Block, secret: bytes, body: bytes)
    requires secret != [] && !FamilyOf(code).AccessReq? && DecodeAll(body).Ok? && AtMostOneMA(DecodeAll(body).value)
    ensures (var attrs := DecodeAll(body).value;
             SerializeAttributes(md5, code, auth, secret, attrs) == Ok(Section(body, MAOffset(attrs)))
             && FindMA(body) == Ok(MAOffset(attrs)) && (MAOffset(attrs).Some? <==> HasMA(attrs)))
  {
    var attrs := DecodeAll(body).value;
    EncodeDecode(body);
    FindEncode(attrs);
    NothingHidden(md5, code, auth, secret, attrs);
    assert forall i :: 0 <= i < |attrs| ==> Fits(attrs[i]) && ValueFits(code, attrs[i]);
    SerializeExactly(md5, code, auth, secret, attrs);
  }

  lemma CoveredBy(md5: Hash, m: Message, cleared: bytes, secret: bytes)
    requires 20 + |cleared| < 0x1_0000
    ensures !IsSelfSigned(m.code) ==> RequestAuthenticator(md5, m, cleared, secret) == m.auth
    ensures IsSelfSigned(m.code) ==>
              RequestAuthenticator(md5, m, cleared, secret)
              == AccountingRequestAuthenticator(md5, m.code, m.id, 20 + |cleared|, cleared, secret)
  {
  }

  // What Marshal emits for a reply whose section and authenticator are signed already.
  lemma ReplySigned(md5: Hash, hmac: Mac, m: Message, s: Section, sent: Block, secret: bytes)
    requires secret != [] && IsResponseCode(m.code) && RoomAt(s) && 20 + |s.body| <= MaxLengthForCode(m.code)
    requires SerializeAttributes(md5, m.code, m.auth, secret, m.attrs) == Ok(s)
    requires SignedBody(md5, hmac, m, s, secret) == s.body
    requires ResponseAuthenticator(md5, m.code, m.id, 20 + |s.body|, m.auth, s.body, secret) == sent
    ensures Marshaled(md5, hmac, m, secret) == Ok(Frame(m.code, m.id, 20 + |s.body|, sent, s.body))
  {
    assert SentAuthenticator(md5, hmac, m, s, secret) == sent;
  }

  // The same where the section passes the check of its Message-Authenticator, if any.
  lemma ReplyAlready(md5: Hash, hmac: Mac, m: Message, s: Section, sent: Block, raw: bytes, secret: bytes)
    requires secret != [] && IsResponseCode(m.code) && RoomAt(s) && 20 + |s.body| <= MaxLengthForCode(m.code)
    requires SerializeAttributes(md5, m.code, m.auth, secret, m.attrs) == Ok(s) && FindMA(s.body) == Ok(s.off)
    requires raw == Frame(m.code, m.id, 20 + |s.body|, sent, s.body)
    requires ResponseAuthenticator(md5, m.code, m.id, 20 + |s.body|, m.auth, s.body, secret) == sent
    requires s.off.Some? ==> VerifyMessageAuthenticator(hmac, raw, m.auth, secret).Ok?
    ensures Marshaled(md5, hmac, m, secret) == Ok(raw)
  {
    if s.off.Some? {
      CoveredBy(md5, m, Patched(s.body, s.off, Zeros(16)), secret);
      AcceptedMAC(md5, hmac, m, s.body, s, sent, secret, m.auth);
    }
    ReplySigned(md5, hmac, m, s, sent, secret);
  }

  // What the four checks have established.
  lemma VerifiedParts(md5: Hash, hmac: Mac, raw: bytes, id: byte, requestAuth: Block, secret: bytes)
    requires VerifyResponse(md5, hmac, raw, id, requestAuth, secret).Ok? && Uint16(raw[2..4]) == |raw|
    ensures 20 <= |raw| <= MaxLengthForCode(raw[0])
    ensures (var q := VerifyResponse(md5, hmac, raw, id, requestAuth, secret).value;
             q.code == raw[0] && q.id == raw[1] == id && IsResponseCode(q.code) && DecodeAll(raw[20..]) == Ok(q.attrs)
             && ResponseAuthenticator(md5, q.code, q.id, |raw|, requestAuth, raw[20..], secret) == raw[4..20]
             && (HasMA(q.attrs) ==> VerifyMessageAuthenticator(hmac, raw, requestAuth, secret).Ok?))
  {
    assert raw[20..|raw|] == raw[20..];
  }

  // A reply without trailing octets and with at most one Message-Authenticator is
  // accepted only if it is, octet for octet, what Marshal emits for the packet it
  // decodes to, signed against the original Request Authenticator.
  lemma AcceptedIsMarshaled(md5: Hash, hmac: Mac, raw: bytes, id: byte, requestAuth: Block, secret: bytes)
    requires secret != [] && VerifyResponse(md5, hmac, raw, id, requestAuth, secret).Ok?
    requires Uint16(raw[2..4]) == |raw|
    requires AtMostOneMA(VerifyResponse(md5, hmac, raw, id, requestAuth, secret).value.attrs)
    ensures (var q := VerifyResponse(md5, hmac, raw, id, requestAuth, secret).value;
             q.id == id && IsResponseCode(q.code)
             && Marshaled(md5, hmac, q.(auth := requestAuth), secret) == Ok(raw))
  {
    var q := VerifyResponse(md5, hmac, raw, id, requestAuth, secret).value;
    var m := q.(auth := requestAuth);
    var s := Section(raw[20..], MAOffset(m.attrs));
    VerifiedParts(md5, hmac, raw, id, requestAuth, secret);
    SerializeDecoded(md5, m.code, m.auth, secret, raw[20..]);
    VerifiedSection(hmac, raw, s, requestAuth, secret);
    ReplyAlready(md5, hmac, m, s, raw[4..20], raw, secret);
  }

  // The cleared section and the authenticator of a self-signed request, as the receiver
  // recomputed them.
  lemma AcceptedDigest(md5: Hash, raw: bytes, secret: bytes, attrs: seq<Attribute>)
    requires |raw| >= 20 && Uint16(raw[2..4]) == |raw| && IsSelfSigned(raw[0])
    requires Unmarshaled(md5, raw, secret) == Ok(Message(raw[0], raw[1], raw[4..20], attrs))
    requires StandardMA(attrs)
    ensures DecodeAll(raw[20..]) == Ok(attrs) && AllFit(attrs) && Encode(attrs) == raw[20..]
    ensures MAOffset(attrs).Some? ==> MAOffset(attrs).value + 18 <= |raw[20..]|
    ensures (var cleared := Patched(raw[20..], MAOffset(attrs), Zeros(16));
             AccountingRequestAuthenticator(md5, raw[0], raw[1], |raw|, cleared, secret) == raw[4..20])
  {
    assert raw[20..|raw|] == raw[20..];
    EncodeDecode(raw[20..]);
    WalksAgree(attrs);
  }

  // What Marshal emits when the section is signed already.
  lemma SignedAlready(md5: Hash, hmac: Mac, m: Message, s: Section, secret: bytes)
    requires secret != [] && IsRequestCode(m.code) && RoomAt(s) && 20 + |s.body| <= MaxLengthForCode(m.code)
    requires SerializeAttributes(md5, m.code, m.auth, secret, m.attrs) == Ok(s)
    requires RequestAuthenticator(md5, m, Patched(s.body, s.off, Zeros(16)), secret) == m.auth
    requires SignedBody(md5, hmac, m, s, secret) == s.body
    ensures Marshaled(md5, hmac, m, secret) == Ok(Frame(m.code, m.id, 20 + |s.body|, m.auth, s.body))
  {
    assert SentAuthenticator(md5, hmac, m, s, secret) == m.auth;
  }

  // The same where the section passes the check of its Message-Authenticator, if any.
  lemma VerifiedAlready(md5: Hash, hmac: Mac, m: Message, s: Section, raw: bytes, secret: bytes, anyAuth: Block)
    requires secret != [] && IsRequestCode(m.code) && RoomAt(s) && 20 + |s.body| <= MaxLengthForCode(m.code)
    requires SerializeAttributes(md5, m.code, m.auth, secret, m.attrs) == Ok(s) && FindMA(s.body) == Ok(s.off)
    requires RequestAuthenticator(md5, m, Patched(s.body, s.off, Zeros(16)), secret) == m.auth
    requires raw == Frame(m.code, m.id, 20 + |s.body|, m.auth, s.body)
    requires s.off.Some? ==> VerifyMessageAuthenticator(hmac, raw, anyAuth, secret).Ok?
    ensures Marshaled(md5, hmac, m, secret) == Ok(raw)
  {
    if s.off.Some? {
      AcceptedMAC(md5, hmac, m, s.body, s, m.auth, secret, anyAuth);
    }
    SignedAlready(md5, hmac, m, s, secret);
  }

  // A self-signed request whose attributes serialize to the section it already has.
  lemma SelfSignedAlready(md5: Hash, hmac: Mac, m: Message, s: Section, raw: bytes, secret: bytes, anyAuth: Block)
    requires secret != [] && IsSelfSigned(m.code) && RoomAt(s) && 20 + |s.body| <= MaxLengthForCode(m.code)
    requires SerializeAttributes(md5, m.code, m.auth, secret, m.attrs) == Ok(s) && FindMA(s.body) == Ok(s.off)
    requires AccountingRequestAuthenticator(md5, m.code, m.id, 20 + |s.body|, Patched(s.body, s.off, Zeros(16)), secret) == m.auth
    requires raw == Frame(m.code, m.id, 20 + |s.body|, m.auth, s.body)
    requires s.off.Some? ==> VerifyMessageAuthenticator(hmac, raw, anyAuth, secret).Ok?
    ensures Marshaled(md5, hmac, m, secret) == Ok(raw)
  {
    CoveredBy(md5, m, Patched(s.body, s.off, Zeros(16)), secret);
    VerifiedAlready(md5, hmac, m, s, raw, secret, anyAuth);
  }

  lemma AcceptedHeader(md5: Hash, raw: bytes, secret: bytes)
    requires |raw| >= 20 && Uint16(raw[2..4]) == |raw| && Unmarshaled(md5, raw, secret).Ok?
    ensures |raw| <= MaxLengthForCode(raw[0])
    ensures (var m := Unmarshaled(md5, raw, secret).value; m.code == raw[0] && m.id == raw[1] && m.auth == raw[4..20])
  {
  }

  // Likewise a self-signed request whose Message-Authenticator, if it has one, is of the
  // standard size and verifies: it is what Marshal emits for the packet it decodes to.
  lemma AcceptedRequestIsMarshaled(md5: Hash, hmac: Mac, raw: bytes, secret: bytes, anyAuth: Block)
    requires secret != [] && |raw| >= 20 && Uint16(raw[2..4]) == |raw| && IsSelfSigned(raw[0])
    requires Unmarshaled(md5, raw, secret).Ok?
    requires AtMostOneMA(Unmarshaled(md5, raw, secret).value.attrs) && StandardMA(Unmarshaled(md5, raw, secret).value.attrs)
    requires HasMA(Unmarshaled(md5, raw, secret).value.attrs) ==>
               VerifyMessageAuthenticator(hmac, raw, anyAuth, secret).Ok?
    ensures Marshaled(md5, hmac, Unmarshaled(md5, raw, secret).value, secret) == Ok(raw)
  {
    var m := Unmarshaled(md5, raw, secret).value;
    AcceptedHeader(md5, raw, secret);
    AcceptedDigest(md5, raw, secret, m.attrs);
    var s := Section(raw[20..], MAOffset(m.attrs));
    SerializeDecoded(md5, m.code, m.auth, secret, raw[20..]);
    VerifiedSection(hmac, raw, s, anyAuth, secret);
    SelfSignedAlready(md5, hmac, m, s, raw, secret, anyAuth);
  }
}
