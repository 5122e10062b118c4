// A whole request-reply exchange between a client and a server that share a secret.
module Session {
  import opened Bytes
  import opened Wire
  import opened Crypto
  import opened Attributes
  import opened Walks
  import opened Serialize
  import opened Packet
  import opened Exchange

  ghost predicate IsReplyTo(m: Message, id: byte, requestAuth: Block) {
    IsResponseCode(m.code) && RoomForMA(m.attrs) && m.id == id && m.auth == requestAuth
  }

  // A buffer without trailing octets is accepted, with at most one full-size
  // Message-Authenticator, exactly when some reply to the request marshals to it.
  lemma AcceptedIff(md5: Hash, hmac: Mac, raw: bytes, id: byte, requestAuth: Block, secret: bytes)
    requires secret != [] && |raw| >= 20 && Uint16(raw[2..4]) == |raw|
    ensures (var r := VerifyResponse(md5, hmac, raw, id, requestAuth, secret);
             r.Ok? && AtMostOneMA(r.value.attrs) && RoomForMA(r.value.attrs))
       <==> exists m: Message :: IsReplyTo(m, id, requestAuth) && Marshaled(md5, hmac, m, secret) == Ok(raw)
  {
    var r := VerifyResponse(md5, hmac, raw, id, requestAuth, secret);
    if r.Ok? && AtMostOneMA(r.value.attrs) && RoomForMA(r.value.attrs) {
      AcceptedIsMarshaled(md5, hmac, raw, id, requestAuth, secret);
      assert IsReplyTo(r.value.(auth := requestAuth), id, requestAuth);
    }
    if m: Message :| IsReplyTo(m, id, requestAuth) && Marshaled(md5, hmac, m, secret) == Ok(raw) {
      MarshaledIsAccepted(md5, hmac, m, secret);
    }
  }

  lemma MarshaledIsAccepted(md5: Hash, hmac: Mac, m: Message, secret: bytes)
    requires IsResponseCode(m.code) && RoomForMA(m.attrs) && Marshaled(md5, hmac, m, secret).Ok?
    ensures (var r := VerifyResponse(md5, hmac, Marshaled(md5, hmac, m, secret).value, m.id, m.auth, secret);
             r.Ok? && AtMostOneMA(r.value.attrs) && RoomForMA(r.value.attrs))
  {
    ReplyAccepted(md5, hmac, m, secret);
    MarshaledDecodes(md5, hmac, m, secret);
    SerializeExactly(md5, m.code, m.auth, secret, m.attrs);
    var mac, auth: Block :|
      VerifyResponse(md5, hmac, Marshaled(md5, hmac, m, secret).value, m.id, m.auth, secret)
      == Ok(Message(m.code, m.id, auth, SetMA(m.attrs, mac)));
    SetMAFits(m.attrs, mac);
    assert forall i :: 0 <= i < |m.attrs| ==> (IsMA(SetMA(m.attrs, mac)[i]) <==> IsMA(m.attrs[i]));
  }

  // A block other than `v`.
  function OtherBlock(v: Block): (w: Block)
    ensures w != v
  {
    var b: byte := if v[0] == 0 then 1 else 0;
    var w: Block := seq(16, _ => b);
    assert w[0] != v[0];
    w
  }

  lemma OtherMACRefused(hmac: Mac, raw: bytes, requestAuth: Block, secret: bytes) returns (other: Mac)
    requires VerifyMessageAuthenticator(hmac, raw, requestAuth, secret).Ok?
    ensures VerifyMessageAuthenticator(other, raw, requestAuth, secret).Err?
  {
    var offset := 20 + FindMA(raw[20..Uint16(raw[2..4])]).value.value;
    var w := OtherBlock(raw[offset + 2..offset + 18]);
    other := (_, _) => w;
  }

  // An accepted reply is accepted under every HMAC exactly when it has no
  // Message-Authenticator: none is asked for, whatever the request carried.
  lemma UnsignedReplyAcceptedIff(md5: Hash, hmac: Mac, raw: bytes, id: byte, requestAuth: Block, secret: bytes)
    requires VerifyResponse(md5, hmac, raw, id, requestAuth, secret).Ok?
    ensures (forall other: Mac :: VerifyResponse(md5, other, raw, id, requestAuth, secret).Ok?)
       <==> !HasMA(VerifyResponse(md5, hmac, raw, id, requestAuth, secret).value.attrs)
  {
    if HasMA(VerifyResponse(md5, hmac, raw, id, requestAuth, secret).value.attrs) {
      var other := OtherMACRefused(hmac, raw, requestAuth, secret);
      assert VerifyResponse(md5, other, raw, id, requestAuth, secret).Err?;
    }
  }

  ghost predicate SoundRequest(md5: Hash, hmac: Mac, raw: bytes, secret: bytes, anyAuth: Block) {
    var r := Unmarshaled(md5, raw, secret);
    r.Ok? && AtMostOneMA(r.value.attrs) && StandardMA(r.value.attrs)
    && (HasMA(r.value.attrs) ==> VerifyMessageAuthenticator(hmac, raw, anyAuth, secret).Ok?)
  }

  // The server's side: a self-signed request without trailing octets passes both checks,
  // with at most one standard Message-Authenticator, exactly when some packet marshals
  // to it.
  lemma RequestAcceptedIff(md5: Hash, hmac: Mac, raw: bytes, secret: bytes, anyAuth: Block)
    requires secret != [] && |raw| >= 20 && Uint16(raw[2..4]) == |raw| && IsSelfSigned(raw[0])
    ensures SoundRequest(md5, hmac, raw, secret, anyAuth)
       <==> exists m: Message ::
              m.code == raw[0] && StandardMA(m.attrs) && Marshaled(md5, hmac, m, secret) == Ok(raw)
  {
    if SoundRequest(md5, hmac, raw, secret, anyAuth) {
      AcceptedRequestIsMarshaled(md5, hmac, raw, secret, anyAuth);
      assert Unmarshaled(md5, raw, secret).value.code == raw[0];
    }
    if m: Message :| m.code == raw[0] && StandardMA(m.attrs) && Marshaled(md5, hmac, m, secret) == Ok(raw) {
      MarshaledRequestSound(md5, hmac, m, secret, anyAuth);
    }
  }

  lemma MarshaledRequestSound(md5: Hash, hmac: Mac, m: Message, secret: bytes, anyAuth: Block)
    requires IsSelfSigned(m.code) && StandardMA(m.attrs) && Marshaled(md5, hmac, m, secret).Ok?
    ensures SoundRequest(md5, hmac, Marshaled(md5, hmac, m, secret).value, secret, anyAuth)
  {
    RequestAccepted(md5, hmac, m, secret, anyAuth);
    MarshaledDecodes(md5, hmac, m, secret);
    SerializeExactly(md5, m.code, m.auth, secret, m.attrs);
    NothingHidden(md5, m.code, m.auth, secret, m.attrs);
    var mac: Block :|
      Unmarshaled(md5, Marshaled(md5, hmac, m, secret).value, secret)
      == Ok(Message(m.code, m.id, Marshaled(md5, hmac, m, secret).value[4..20], SetMA(m.attrs, mac)));
    SameSizes(m.attrs, mac);
  }

  lemma SameSizes(attrs: seq<Attribute>, mac: Block)
    requires StandardMA(attrs) && AtMostOneMA(attrs)
    ensures AtMostOneMA(SetMA(attrs, mac)) && StandardMA(SetMA(attrs, mac))
    ensures HasMA(SetMA(attrs, mac)) <==> HasMA(attrs)
  {
    var out := SetMA(attrs, mac);
    forall i | 0 <= i < |attrs|
      ensures IsMA(out[i]) <==> IsMA(attrs[i])
      ensures |out[i].value| == |attrs[i].value|
    {
    }
  }

  // server/helpers.go, ReplyWith: the reply copies Identifier and Authenticator
  // of the request as the server decoded it.
  function ReplyWith(request: Message, code: byte, attrs: seq<Attribute>): Message {
    Message(code, request.id, request.auth, attrs)
  }

  lemma DifferentInputs(raw: bytes, a: Block, b: Block, secret: bytes)
    requires |raw| >= 20
    ensures a != b ==> Overwrite(raw, 4, a) + secret != Overwrite(raw, 4, b) + secret
  {
    assert (Overwrite(raw, 4, a) + secret)[4..20] == a && (Overwrite(raw, 4, b) + secret)[4..20] == b;
  }

  // A client whose request had another authenticator accepts the reply only if the
  // digest takes two different packets to the same value.
  lemma OtherAnswerNeedsCollision(md5: Hash, hmac: Mac, request: Message, code: byte, attrs: seq<Attribute>, out: bytes,
                                  other: Block, secret: bytes)
    requires IsResponseCode(code) && Marshaled(md5, hmac, ReplyWith(request, code, attrs), secret) == Ok(out)
    requires VerifyResponse(md5, hmac, out, request.id, other, secret).Ok? && other != request.auth
    ensures |out| >= 20
    ensures (var mine, others := Overwrite(out, 4, request.auth) + secret, Overwrite(out, 4, other) + secret;
             mine != others && md5(mine) == md5(others))
  {
    var reply := ReplyWith(request, code, attrs);
    ReplyDigest(md5, hmac, reply, secret);
    SignedParts(md5, hmac, reply, SerializeAttributes(md5, code, request.auth, secret, attrs).value, secret);
    ResponseDigestOfBuffer(md5, out, other, secret);
    assert out[20..|out|] == out[20..];
    DifferentInputs(out, request.auth, other, secret);
  }

  // The whole exchange: the server accepts the client's request, and the client,
  // keeping octets 4..20 of what it sent, accepts the server's reply.
  lemma HonestExchange(md5: Hash, hmac: Mac, m: Message, secret: bytes, code: byte, attrs: seq<Attribute>)
    requires IsRequestCode(m.code) && Marshaled(md5, hmac, m, secret).Ok?
    requires RoomForMA(m.attrs) && (IsSelfSigned(m.code) ==> StandardMA(m.attrs))
    requires IsResponseCode(code) && RoomForMA(attrs)
    ensures |Marshaled(md5, hmac, m, secret).value| >= 20
    ensures (var raw := Marshaled(md5, hmac, m, secret).value;
             var seen := Unmarshaled(md5, raw, secret);
             seen.Ok?
             && (var reply := Marshaled(md5, hmac, ReplyWith(seen.value, code, attrs), secret);
                 reply.Ok? ==>
                   exists mac, auth: Block ::
                     VerifyResponse(md5, hmac, reply.value, m.id, raw[4..20], secret)
                     == Ok(Message(code, m.id, auth, SetMA(attrs, mac)))))
  {
    RequestAccepted(md5, hmac, m, secret, Zeros(16));
    var raw := Marshaled(md5, hmac, m, secret).value;
    var reply := ReplyWith(Unmarshaled(md5, raw, secret).value, code, attrs);
    if Marshaled(md5, hmac, reply, secret).Ok? {
      ReplyAccepted(md5, hmac, reply, secret);
    }
  }

  // A password sent in an Access-Request is read back by the server, who keys the
  // decryption with the Authenticator it decoded; only trailing NULs are lost.
  lemma PasswordReachesServer(md5: Hash, hmac: Mac, m: Message, secret: bytes, i: nat)
    requires FamilyOf(m.code).AccessReq? && RoomForMA(m.attrs) && Marshaled(md5, hmac, m, secret).Ok?
    requires i < |m.attrs| && m.attrs[i].typ == USER_PASSWORD
    ensures (var seen := Unmarshaled(md5, Marshaled(md5, hmac, m, secret).value, secret);
             seen.Ok? && i < |seen.value.attrs| && seen.value.attrs[i].typ == USER_PASSWORD
             && DecryptUserPassword(md5, seen.value.attrs[i].value, seen.value.auth, secret)
                == Ok(TrimNul(m.attrs[i].value)))
  {
    RequestAccepted(md5, hmac, m, secret, Zeros(16));
    MarshaledDecodes(md5, hmac, m, secret);
    SerializeExactly(md5, m.code, m.auth, secret, m.attrs);
    assert ValueFits(m.code, m.attrs[i]);
    PasswordRoundTrip(md5, m.attrs[i].value, m.auth, secret);
    var ws := WireList(md5, m.code, m.auth, secret, m.attrs);
    assert forall mac: Block :: SetMA(ws, mac)[i] == ws[i];
  }

  // ----- what the server reads -----

  // The attribute `x` of a request as the server reads it, `y`: passwords of an
  // Access-Request are hidden, Message-Authenticators keep type and size, everything else
  // is what it was.
  ghost predicate Carried(md5: Hash, access: bool, auth: Block, secret: bytes, x: Attribute, y: Attribute) {
    y.typ == x.typ
    && if x.typ == MESSAGE_AUTHENTICATOR then |y.value| == |x.value|
       else if access && x.typ == USER_PASSWORD then DecryptUserPassword(md5, y.value, auth, secret) == Ok(TrimNul(x.value))
       else y == x
  }

  ghost predicate AllCarried(md5: Hash, access: bool, auth: Block, secret: bytes, xs: seq<Attribute>, ys: seq<Attribute>) {
    |xs| == |ys| && forall i :: 0 <= i < |xs| ==> Carried(md5, access, auth, secret, xs[i], ys[i])
  }

  lemma CarriedOnWire(md5: Hash, code: byte, auth: Block, secret: bytes, a: Attribute)
    requires secret != [] && ValueFits(code, a)
    ensures Carried(md5, FamilyOf(code).AccessReq?, auth, secret, a, OnWire(md5, code, auth, secret, a))
  {
    if Hidden(code, a) {
      PasswordRoundTrip(md5, a.value, auth, secret);
    }
  }

  lemma CarriedSigned(md5: Hash, access: bool, auth: Block, secret: bytes, xs: seq<Attribute>, ws: seq<Attribute>, mac: Block)
    requires AllCarried(md5, access, auth, secret, xs, ws) && RoomForMA(ws)
    ensures AllCarried(md5, access, auth, secret, xs, SetMA(ws, mac))
  {
    forall i | 0 <= i < |xs|
      ensures Carried(md5, access, auth, secret, xs[i], SetMA(ws, mac)[i])
    {
      assert Carried(md5, access, auth, secret, xs[i], ws[i]);
    }
  }

  lemma WireCarries(md5: Hash, code: byte, auth: Block, secret: bytes, attrs: seq<Attribute>)
    requires secret != [] && Marshalable(code, attrs)
    ensures AllCarried(md5, FamilyOf(code).AccessReq?, auth, secret, attrs, WireList(md5, code, auth, secret, attrs))
  {
    forall i | 0 <= i < |attrs|
      ensures Carried(md5, FamilyOf(code).AccessReq?, auth, secret, attrs[i], WireList(md5, code, auth, secret, attrs)[i])
    {
      CarriedOnWire(md5, code, auth, secret, attrs[i]);
    }
  }

  lemma CarriedTail(md5: Hash, access: bool, auth: Block, secret: bytes, xs: seq<Attribute>, ys: seq<Attribute>, n: nat)
    requires AllCarried(md5, access, auth, secret, xs, ys) && n <= |xs|
    ensures AllCarried(md5, access, auth, secret, xs[n..], ys[n..])
  {
    forall i | 0 <= i < |xs| - n
      ensures Carried(md5, access, auth, secret, xs[n..][i], ys[n..][i])
    {
      assert Carried(md5, access, auth, secret, xs[n + i], ys[n + i]);
    }
  }

  // The server reads code, Identifier and attributes of the packet the client built.
  lemma RequestCarried(md5: Hash, hmac: Mac, m: Message, secret: bytes)
    requires IsRequestCode(m.code) && Marshaled(md5, hmac, m, secret).Ok?
    requires RoomForMA(m.attrs) && (IsSelfSigned(m.code) ==> StandardMA(m.attrs))
    ensures |Marshaled(md5, hmac, m, secret).value| >= 20
    ensures (var raw := Marshaled(md5, hmac, m, secret).value;
             var r := Unmarshaled(md5, raw, secret);
             r.Ok? && r.value.code == m.code && r.value.id == m.id && r.value.auth == raw[4..20]
             && AllCarried(md5, FamilyOf(m.code).AccessReq?, m.auth, secret, m.attrs, r.value.attrs))
  {
    RequestAccepted(md5, hmac, m, secret, Zeros(16));
    MarshaledDecodes(md5, hmac, m, secret);
    SerializeExactly(md5, m.code, m.auth, secret, m.attrs);
    var raw := Marshaled(md5, hmac, m, secret).value;
    var ws := WireList(md5, m.code, m.auth, secret, m.attrs);
    var mac: Block :| Unmarshaled(md5, raw, secret) == Ok(Message(m.code, m.id, raw[4..20], SetMA(ws, mac)));
    WireCarries(md5, m.code, m.auth, secret, m.attrs);
    CarriedSigned(md5, FamilyOf(m.code).AccessReq?, m.auth, secret, m.attrs, ws, mac);
  }
}
