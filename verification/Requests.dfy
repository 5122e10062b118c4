// What a server makes of a request: exactly when an Access-Request survives Marshal's
// unchecked Message-Authenticator, when octets behind the Length matter, and which
// Access-Requests are the ones Marshal emits (packet/packet.go).
module Requests {
  import opened Bytes
  import opened Chain
  import opened Wire
  import opened Crypto
  import opened Attributes
  import opened Walks
  import opened Serialize
  import opened Packet
  import opened Exchange
  import opened Panics
  import opened Spill
  import opened Limits

  // ----- an Access-Request with a Message-Authenticator of any size -----

  ghost predicate AccessEmittable(m: Message, secret: bytes) {
    Emittable(m, secret) && FamilyOf(m.code).AccessReq?
  }

  lemma EmittableSerializes(md5: Hash, m: Message, secret: bytes)
    requires Emittable(m, secret)
    ensures (var ws := WireList(md5, m.code, m.auth, secret, m.attrs);
             AllFit(ws) && FirstMA(ws) == FirstMA(m.attrs) && 20 + |Encode(ws)| <= MaxLengthForCode(m.code)
             && SerializeAttributes(md5, m.code, m.auth, secret, m.attrs) == Ok(Section(Encode(ws), MAOffset(ws))))
  {
    WireLengthIs(md5, m.code, m.auth, secret, m.attrs);
    SerializeExactly(md5, m.code, m.auth, secret, m.attrs);
    SameMAs(md5, m.code, m.auth, secret, m.attrs);
  }

  lemma RoomyMarshals(md5: Hash, hmac: Mac, m: Message, secret: bytes)
    requires Emittable(m, secret) && RoomForMA(m.attrs)
    ensures Marshaled(md5, hmac, m, secret).Ok?
  {
    SameMAs(md5, m.code, m.auth, secret, m.attrs);
    EmittableSerializes(md5, m, secret);
    PatchedDecodes(WireList(md5, m.code, m.auth, secret, m.attrs), Zeros(16));
    WireOverrunsIff(md5, m.code, m.auth, secret, m.attrs);
    MarshalPanicsIff(md5, hmac, m, secret);
  }

  // Is the request sent, and does it reach the server with its attributes, passwords
  // hidden, whatever the digests?
  ghost predicate AccessRecovered(m: Message, secret: bytes) {
    forall md5: Hash, hmac: Mac ::
      Marshaled(md5, hmac, m, secret).Ok?
      && (var r := Unmarshaled(md5, Marshaled(md5, hmac, m, secret).value, secret);
          r.Ok? && SameButMA(WireList(md5, m.code, m.auth, secret, m.attrs), r.value.attrs))
  }

  // The signature of an Access-Request behind a short value: what is sent.
  lemma ShortSection(md5: Hash, hmac: Mac, m: Message, secret: bytes, k: nat)
    requires Emittable(m, secret) && !WireOverruns(m.code, m.attrs)
    requires k == FirstMA(m.attrs) < |m.attrs| && |m.attrs[k].value| < 16
    ensures (var ws := WireList(md5, m.code, m.auth, secret, m.attrs);
             var s := Section(Encode(ws), MAOffset(ws));
             AllFit(ws) && k == FirstMA(ws) && k + 1 < |ws| && ws[k] == m.attrs[k] && !Overruns(ws)
             && s.off.Some? && RoomAt(s) && 20 + |s.body| <= MaxLengthForCode(m.code)
             && Marshaled(md5, hmac, m, secret) == Ok(Signed(md5, hmac, m, s, secret)))
  {
    EmittableSerializes(md5, m, secret);
    WireOverrunsIff(md5, m.code, m.auth, secret, m.attrs);
    ShortOverrunsIff(WireList(md5, m.code, m.auth, secret, m.attrs), k);
  }

  lemma ReadAttributes(md5: Hash, raw: bytes, secret: bytes)
    requires |raw| >= 20 && Uint16(raw[2..4]) == |raw|
    ensures Unmarshaled(md5, raw, secret).Ok? ==>
              DecodeAll(raw[20..]) == Ok(Unmarshaled(md5, raw, secret).value.attrs)
  {
    assert raw[20..|raw|] == raw[20..];
  }

  lemma SpilledRequest(m: Message, secret: bytes)
    requires AccessEmittable(m, secret) && !RoomForMA(m.attrs) && !WireOverruns(m.code, m.attrs)
    ensures !AccessRecovered(m, secret)
  {
    var md5: Hash := _ => Zeros(16);
    var k := ShortMA(m.attrs);
    var ws := WireList(md5, m.code, m.auth, secret, m.attrs);
    var s := Section(Encode(ws), MAOffset(ws));
    ShortSection(md5, Flat(), m, secret, k);
    var c: byte := if ws[k + 1].typ == 0 then 1 else 0;
    var hmac: Mac := (_, _) => seq(16, _ => c);
    ShortSection(md5, hmac, m, secret, k);
    SpilledLost(md5, hmac, m, s, ws, secret, k, c);
  }

  // A constant signature that differs from the type it spills over.
  lemma SpilledLost(md5: Hash, hmac: Mac, m: Message, s: Section, ws: seq<Attribute>, secret: bytes, k: nat, c: byte)
    requires AllFit(ws) && k + 1 < |ws| && k == FirstMA(ws) && |ws[k].value| < 16 && c != ws[k + 1].typ
    requires s == Section(Encode(ws), MAOffset(ws)) && RoomAt(s) && s.off.Some?
    requires MACOf(md5, hmac, m, s, secret) == seq(16, _ => c)
    ensures (var r := Unmarshaled(md5, Signed(md5, hmac, m, s, secret), secret);
             r.Ok? ==> !SameButMA(ws, r.value.attrs))
  {
    var raw := Signed(md5, hmac, m, s, secret);
    SignedParts(md5, hmac, m, s, secret);
    ReadAttributes(md5, raw, secret);
    SpillNeverRecovered(ws, s, raw[20..], k, c);
  }

  // As with replies: an Access-Request survives exactly when its Message-Authenticator
  // has room for the signature.
  lemma AccessRecoveredIff(m: Message, secret: bytes)
    requires AccessEmittable(m, secret)
    ensures AccessRecovered(m, secret) <==> RoomForMA(m.attrs)
  {
    if RoomForMA(m.attrs) {
      forall md5: Hash, hmac: Mac
        ensures Marshaled(md5, hmac, m, secret).Ok?
        ensures (var r := Unmarshaled(md5, Marshaled(md5, hmac, m, secret).value, secret);
                 r.Ok? && SameButMA(WireList(md5, m.code, m.auth, secret, m.attrs), r.value.attrs))
      {
        RoomyRecovered(md5, hmac, m, secret);
      }
    } else if WireOverruns(m.code, m.attrs) {
      MarshalPanicsIff((_: bytes) => ONES, Flat(), m, secret);
    } else {
      SpilledRequest(m, secret);
    }
  }

  lemma RoomyRecovered(md5: Hash, hmac: Mac, m: Message, secret: bytes)
    requires AccessEmittable(m, secret) && RoomForMA(m.attrs)
    ensures Marshaled(md5, hmac, m, secret).Ok?
    ensures (var r := Unmarshaled(md5, Marshaled(md5, hmac, m, secret).value, secret);
             r.Ok? && SameButMA(WireList(md5, m.code, m.auth, secret, m.attrs), r.value.attrs))
  {
    RoomyMarshals(md5, hmac, m, secret);
    RequestAccepted(md5, hmac, m, secret, Zeros(16));
    var raw := Marshaled(md5, hmac, m, secret).value;
    var ws := WireList(md5, m.code, m.auth, secret, m.attrs);
    var mac: Block :| Unmarshaled(md5, raw, secret) == Ok(Message(m.code, m.id, raw[4..20], SetMA(ws, mac)));
    assert SameButMA(ws, SetMA(ws, mac));
  }

  // ----- both checks, and octets behind the Length -----

  // Unmarshal, and the check of a Message-Authenticator if there is one.
  ghost predicate PassesChecks(md5: Hash, hmac: Mac, raw: bytes, anyAuth: Block, secret: bytes) {
    var r := Unmarshaled(md5, raw, secret);
    r.Ok? && (HasMA(r.value.attrs) ==> VerifyMessageAuthenticator(hmac, raw, anyAuth, secret).Ok?)
  }

  // Is the request sent, and does it pass both checks with `pad` behind it, whatever
  // the digests?
  ghost predicate PassesWithPadding(m: Message, secret: bytes, pad: bytes, anyAuth: Block) {
    forall md5: Hash, hmac: Mac ::
      Marshaled(md5, hmac, m, secret).Ok?
      && PassesChecks(md5, hmac, Marshaled(md5, hmac, m, secret).value + pad, anyAuth, secret)
  }

  // Does the signature leave what the receiver recomputes intact? A self-signed request
  // needs the standard size, an Access-Request all lengths of the section.
  ghost predicate SignatureSurvives(m: Message) {
    if IsSelfSigned(m.code) then StandardMA(m.attrs) else SignatureFits(m.attrs)
  }

  lemma ZeroValueRefused(md5: Hash, hmac: Mac, raw: bytes, off: nat, attrs: seq<Attribute>, secret: bytes, pad: bytes, anyAuth: Block)
    requires 20 + off + 18 <= |raw| && Uint16(raw[2..4]) == |raw| && FindMA(raw[20..]) == Ok(Some(off))
    requires DecodeAll(raw[20..]) == Ok(attrs) && HasMA(attrs) && raw[20 + off + 2..20 + off + 18] == Zeros(16)
    requires forall x: bytes :: |x| == |raw| + |pad| ==> hmac(secret, x) == ONES
    ensures !PassesChecks(md5, hmac, raw + pad, anyAuth, secret)
  {
    PaddingSeen(hmac, raw, pad, off, anyAuth, secret);
    PaddingUnseen(md5, raw, pad, anyAuth, secret);
    ReadAttributes(md5, raw, secret);
  }

  lemma PaddedRequestRefused(md5: Hash, hmac: Mac, m: Message, s: Section, attrs: seq<Attribute>, secret: bytes, pad: bytes,
                             anyAuth: Block)
    requires RoomAt(s) && s.off.Some? && FindMA(SignedBody(md5, hmac, m, s, secret)) == Ok(s.off)
    requires DecodeAll(SignedBody(md5, hmac, m, s, secret)) == Ok(attrs) && HasMA(attrs)
    requires MACOf(md5, hmac, m, s, secret) == Zeros(16)
    requires forall x: bytes :: |x| == 20 + |s.body| + |pad| ==> hmac(secret, x) == ONES
    ensures !PassesChecks(md5, hmac, Signed(md5, hmac, m, s, secret) + pad, anyAuth, secret)
  {
    ZeroSigned(md5, hmac, m, s, secret);
    ZeroValueRefused(md5, hmac, Signed(md5, hmac, m, s, secret), s.off.value, attrs, secret, pad, anyAuth);
  }

  lemma RoomyPaddingSeen(m: Message, secret: bytes, pad: bytes, anyAuth: Block)
    requires Emittable(m, secret) && RoomForMA(m.attrs) && HasMA(m.attrs) && pad != []
    ensures !PassesWithPadding(m, secret, pad, anyAuth)
  {
    var md5: Hash := _ => Zeros(16);
    var ws := WireList(md5, m.code, m.auth, secret, m.attrs);
    var s := Section(Encode(ws), MAOffset(ws));
    EmittableSerializes(md5, m, secret);
    SameMAs(md5, m.code, m.auth, secret, m.attrs);
    var hmac := LengthTelling(20 + |s.body|);
    RoomyMarshals(md5, hmac, m, secret);
    MarshaledDecodes(md5, hmac, m, secret);
    TellsLengths(md5, m, s, secret, pad);
    SetMAFits(ws, Zeros(16));
    PaddedRequestRefused(md5, hmac, m, s, SetMA(ws, Zeros(16)), secret, pad, anyAuth);
  }

  lemma ShortPaddingSeen(m: Message, secret: bytes, pad: bytes, anyAuth: Block, k: nat)
    requires Emittable(m, secret) && !WireOverruns(m.code, m.attrs) && pad != []
    requires k == FirstMA(m.attrs) < |m.attrs| && |m.attrs[k].value| == 15
    ensures !PassesWithPadding(m, secret, pad, anyAuth)
  {
    var md5: Hash := _ => Zeros(16);
    var ws := WireList(md5, m.code, m.auth, secret, m.attrs);
    var s := Section(Encode(ws), MAOffset(ws));
    ShortSection(md5, Flat(), m, secret, k);
    var hmac := LengthTelling(20 + |s.body|);
    ShortSection(md5, hmac, m, secret, k);
    TellsLengths(md5, m, s, secret, pad);
    RetypedDecodes(ws, k, Zeros(16));
    PaddedRequestRefused(md5, hmac, m, s, Retyped(ws, k, Zeros(16)), secret, pad, anyAuth);
  }

  lemma BrokenLengthSeen(m: Message, secret: bytes, pad: bytes, anyAuth: Block, k: nat)
    requires Emittable(m, secret) && !WireOverruns(m.code, m.attrs)
    requires k == FirstMA(m.attrs) < |m.attrs| && |m.attrs[k].value| < 15
    ensures !PassesWithPadding(m, secret, pad, anyAuth)
  {
    var md5: Hash, hmac := _ => ONES, Flat();
    var ws := WireList(md5, m.code, m.auth, secret, m.attrs);
    var s := Section(Encode(ws), MAOffset(ws));
    ShortSection(md5, hmac, m, secret, k);
    ConstantMAC(md5, m, s, secret);
    BrokenLength(ws, k);
    UnreadableRequest(md5, hmac, m, s, secret, pad, anyAuth);
  }

  lemma UnreadableRequest(md5: Hash, hmac: Mac, m: Message, s: Section, secret: bytes, pad: bytes, anyAuth: Block)
    requires RoomAt(s) && DecodeAll(SignedBody(md5, hmac, m, s, secret)).Err?
    ensures !PassesChecks(md5, hmac, Signed(md5, hmac, m, s, secret) + pad, anyAuth, secret)
  {
    var raw := Signed(md5, hmac, m, s, secret);
    SignedParts(md5, hmac, m, s, secret);
    ReadAttributes(md5, raw, secret);
    PaddingUnseen(md5, raw, pad, anyAuth, secret);
  }

  // One octet short in an Access-Request: accepted, the next attribute under a wrong type.
  lemma OneOctetPasses(md5: Hash, hmac: Mac, m: Message, secret: bytes, anyAuth: Block, k: nat)
    requires AccessEmittable(m, secret) && !WireOverruns(m.code, m.attrs)
    requires k == FirstMA(m.attrs) < |m.attrs| && |m.attrs[k].value| == 15
    ensures Marshaled(md5, hmac, m, secret).Ok?
    ensures PassesChecks(md5, hmac, Marshaled(md5, hmac, m, secret).value, anyAuth, secret)
  {
    var ws := WireList(md5, m.code, m.auth, secret, m.attrs);
    var s := Section(Encode(ws), MAOffset(ws));
    ShortSection(md5, hmac, m, secret, k);
    var mac := MACOf(md5, hmac, m, s, secret);
    RetypedDecodes(ws, k, mac);
    SignedRequestAccepted(md5, hmac, m, s, Retyped(ws, k, mac), secret);
    SignedPassesMACCheck(md5, hmac, m, s, secret, anyAuth);
  }

  lemma RoomyPasses(md5: Hash, hmac: Mac, m: Message, secret: bytes, pad: bytes, anyAuth: Block)
    requires Emittable(m, secret) && IsRequestCode(m.code)
    requires RoomForMA(m.attrs) && (IsSelfSigned(m.code) ==> StandardMA(m.attrs))
    requires pad == [] || !HasMA(m.attrs)
    ensures Marshaled(md5, hmac, m, secret).Ok?
    ensures PassesChecks(md5, hmac, Marshaled(md5, hmac, m, secret).value + pad, anyAuth, secret)
  {
    RoomyMarshals(md5, hmac, m, secret);
    RequestAccepted(md5, hmac, m, secret, anyAuth);
    var raw := Marshaled(md5, hmac, m, secret).value;
    RequestPaddingIgnored(md5, hmac, m, secret, pad);
    MarshaledHasMA(md5, hmac, m, secret, anyAuth);
    if pad == [] {
      SameWithNothing(raw);
    }
  }

  lemma MarshaledHasMA(md5: Hash, hmac: Mac, m: Message, secret: bytes, anyAuth: Block)
    requires IsRequestCode(m.code) && Marshaled(md5, hmac, m, secret).Ok?
    requires RoomForMA(m.attrs) && (IsSelfSigned(m.code) ==> StandardMA(m.attrs))
    ensures (var r := Unmarshaled(md5, Marshaled(md5, hmac, m, secret).value, secret);
             r.Ok? && (HasMA(r.value.attrs) <==> HasMA(m.attrs)))
  {
    RequestAccepted(md5, hmac, m, secret, anyAuth);
    var raw := Marshaled(md5, hmac, m, secret).value;
    var ws := WireList(md5, m.code, m.auth, secret, m.attrs);
    SameMAs(md5, m.code, m.auth, secret, m.attrs);
    var mac: Block :| Unmarshaled(md5, raw, secret) == Ok(Message(m.code, m.id, raw[4..20], SetMA(ws, mac)));
    SetMAFits(ws, mac);
  }

  lemma NonStandardSeen(m: Message, secret: bytes, pad: bytes, anyAuth: Block)
    requires Emittable(m, secret) && IsSelfSigned(m.code) && !StandardMA(m.attrs)
    ensures !PassesWithPadding(m, secret, pad, anyAuth)
  {
    SelfSignedAcceptedIff(m, secret);
    var md5: Hash, hmac: Mac :|
      !(Marshaled(md5, hmac, m, secret).Ok? && Unmarshaled(md5, Marshaled(md5, hmac, m, secret).value, secret).Ok?);
    if Marshaled(md5, hmac, m, secret).Ok? {
      RequestPaddingIgnored(md5, hmac, m, secret, pad);
    }
  }

  // A request passes both checks with octets behind its Length exactly when it has no
  // Message-Authenticator; without such octets, exactly when its signature leaves what
  // the receiver recomputes intact.
  lemma RequestPaddingIff(m: Message, secret: bytes, pad: bytes, anyAuth: Block)
    requires Emittable(m, secret) && IsRequestCode(m.code)
    ensures PassesWithPadding(m, secret, pad, anyAuth) <==> !HasMA(m.attrs) || (pad == [] && SignatureSurvives(m))
  {
    if RoomForMA(m.attrs) && (IsSelfSigned(m.code) ==> StandardMA(m.attrs)) {
      RoomyPadding(m, secret, pad, anyAuth);
    } else if IsSelfSigned(m.code) {
      NonStandardSeen(m, secret, pad, anyAuth);
    } else {
      ShortAccessPadding(m, secret, pad, anyAuth);
    }
  }

  lemma RoomyPadding(m: Message, secret: bytes, pad: bytes, anyAuth: Block)
    requires Emittable(m, secret) && IsRequestCode(m.code)
    requires RoomForMA(m.attrs) && (IsSelfSigned(m.code) ==> StandardMA(m.attrs))
    ensures SignatureSurvives(m)
    ensures PassesWithPadding(m, secret, pad, anyAuth) <==> !HasMA(m.attrs) || pad == []
  {
    if !HasMA(m.attrs) || pad == [] {
      forall md5: Hash, hmac: Mac
        ensures Marshaled(md5, hmac, m, secret).Ok?
        ensures PassesChecks(md5, hmac, Marshaled(md5, hmac, m, secret).value + pad, anyAuth, secret)
      {
        RoomyPasses(md5, hmac, m, secret, pad, anyAuth);
      }
    } else {
      RoomyPaddingSeen(m, secret, pad, anyAuth);
    }
  }

  lemma ShortAccessPadding(m: Message, secret: bytes, pad: bytes, anyAuth: Block)
    requires AccessEmittable(m, secret) && !RoomForMA(m.attrs)
    ensures HasMA(m.attrs)
    ensures PassesWithPadding(m, secret, pad, anyAuth) <==> pad == [] && SignatureFits(m.attrs)
  {
    var k := ShortMA(m.attrs);
    ShortFitsIff(m, secret, k);
    if WireOverruns(m.code, m.attrs) {
      MarshalPanicsIff((_: bytes) => ONES, Flat(), m, secret);
    } else if |m.attrs[k].value| < 15 {
      BrokenLengthSeen(m, secret, pad, anyAuth, k);
    } else if pad != [] {
      ShortPaddingSeen(m, secret, pad, anyAuth, k);
    } else {
      forall md5: Hash, hmac: Mac
        ensures Marshaled(md5, hmac, m, secret).Ok?
        ensures PassesChecks(md5, hmac, Marshaled(md5, hmac, m, secret).value + pad, anyAuth, secret)
      {
        OneOctetPasses(md5, hmac, m, secret, anyAuth, k);
        SameWithNothing(Marshaled(md5, hmac, m, secret).value);
      }
    }
  }

  // One octet short, it does not overrun exactly when another attribute follows.
  lemma ShortFitsIff(m: Message, secret: bytes, k: nat)
    requires Emittable(m, secret) && k == FirstMA(m.attrs) < |m.attrs| && |m.attrs[k].value| < 16
    ensures SignatureFits(m.attrs) <==> |m.attrs[k].value| == 15 && !WireOverruns(m.code, m.attrs)
  {
    var md5: Hash := _ => ONES;
    EmittableSerializes(md5, m, secret);
    WireOverrunsIff(md5, m.code, m.auth, secret, m.attrs);
    ShortOverrunsIff(WireList(md5, m.code, m.auth, secret, m.attrs), k);
  }

  // ----- the Access-Requests that Marshal emits -----

  predicate PasswordFits(a: Attribute) {
    a.typ == USER_PASSWORD ==> |a.value| % 16 == 0 && 16 <= |a.value| <= USER_PASSWORD_MAX_LENGTH
  }

  predicate PasswordsFit(attrs: seq<Attribute>) {
    forall i :: 0 <= i < |attrs| ==> PasswordFits(attrs[i])
  }

  // An attribute as it was before it was hidden, padding included.
  function Shown(md5: Hash, auth: Block, secret: bytes, a: Attribute): Attribute {
    if a.typ == USER_PASSWORD && Aligned(a.value) then Attribute(a.typ, Unhide(md5, secret, auth, a.value)) else a
  }

  function Revealed(md5: Hash, auth: Block, secret: bytes, attrs: seq<Attribute>): (rs: seq<Attribute>)
    ensures |rs| == |attrs|
  {
    seq(|attrs|, i requires 0 <= i < |attrs| => Shown(md5, auth, secret, attrs[i]))
  }

  lemma AlignedUnpadded(p: bytes)
    requires |p| % 16 == 0 && 16 <= |p|
    ensures Padded(p) == p
  {
    assert PaddedLength(|p|) == |p|;
  }

  lemma ShownHides(md5: Hash, auth: Block, secret: bytes, a: Attribute)
    requires PasswordFits(a)
    ensures OnWire(md5, ACCESS_REQUEST, auth, secret, Shown(md5, auth, secret, a)) == a
    ensures ValueFits(ACCESS_REQUEST, Shown(md5, auth, secret, a)) <==> Fits(a)
    ensures Shown(md5, auth, secret, a).typ == a.typ
  {
    if a.typ == USER_PASSWORD {
      AlignedUnpadded(Unhide(md5, secret, auth, a.value));
      HideUnhide(md5, secret, auth, a.value);
    }
  }

  // The section of a request serializes again from the passwords it hides.
  lemma RevealedSerializes(md5: Hash, auth: Block, secret: bytes, body: bytes, attrs: seq<Attribute>)
    requires secret != [] && DecodeAll(body) == Ok(attrs) && AtMostOneMA(attrs) && PasswordsFit(attrs)
    ensures SerializeAttributes(md5, ACCESS_REQUEST, auth, secret, Revealed(md5, auth, secret, attrs))
         == Ok(Section(body, MAOffset(attrs)))
    ensures FindMA(body) == Ok(MAOffset(attrs)) && (MAOffset(attrs).Some? <==> HasMA(attrs))
  {
    var rs := Revealed(md5, auth, secret, attrs);
    EncodeDecode(body);
    FindEncode(attrs);
    RevealedMarshalable(md5, auth, secret, attrs);
    SerializeExactly(md5, ACCESS_REQUEST, auth, secret, rs);
  }

  lemma RevealedMarshalable(md5: Hash, auth: Block, secret: bytes, attrs: seq<Attribute>)
    requires AllFit(attrs) && AtMostOneMA(attrs) && PasswordsFit(attrs)
    ensures Marshalable(ACCESS_REQUEST, Revealed(md5, auth, secret, attrs))
    ensures WireList(md5, ACCESS_REQUEST, auth, secret, Revealed(md5, auth, secret, attrs)) == attrs
  {
    var rs := Revealed(md5, auth, secret, attrs);
    forall i | 0 <= i < |attrs|
      ensures rs[i].typ == attrs[i].typ && ValueFits(ACCESS_REQUEST, rs[i])
      ensures OnWire(md5, ACCESS_REQUEST, auth, secret, rs[i]) == attrs[i]
    {
      ShownHides(md5, auth, secret, attrs[i]);
    }
  }

  // What the server makes of a request without trailing octets that Marshal could emit.
  ghost predicate SoundAccess(md5: Hash, hmac: Mac, raw: bytes, secret: bytes, anyAuth: Block) {
    var r := Unmarshaled(md5, raw, secret);
    r.Ok? && AtMostOneMA(r.value.attrs) && PasswordsFit(r.value.attrs) && PassesChecks(md5, hmac, raw, anyAuth, secret)
  }

  // The attributes of an Access-Request, serialized to the section it already has.
  lemma AccessAlready(md5: Hash, hmac: Mac, raw: bytes, rs: seq<Attribute>, s: Section, secret: bytes, anyAuth: Block)
    requires secret != [] && 20 <= |raw| <= MaxLengthForCode(raw[0]) && Uint16(raw[2..4]) == |raw| && raw[0] == ACCESS_REQUEST
    requires SerializeAttributes(md5, ACCESS_REQUEST, raw[4..20], secret, rs) == Ok(s)
    requires s.body == raw[20..] && FindMA(s.body) == Ok(s.off)
    requires s.off.Some? ==> VerifyMessageAuthenticator(hmac, raw, anyAuth, secret).Ok?
    ensures Marshaled(md5, hmac, Message(raw[0], raw[1], raw[4..20], rs), secret) == Ok(raw)
  {
    var m := Message(raw[0], raw[1], raw[4..20], rs);
    VerifiedSection(hmac, raw, s, anyAuth, secret);
    CoveredBy(md5, m, Patched(s.body, s.off, Zeros(16)), secret);
    VerifiedAlready(md5, hmac, m, s, raw, secret, anyAuth);
  }

  lemma RevealedSection(md5: Hash, auth: Block, secret: bytes, body: bytes, attrs: seq<Attribute>) returns (s: Section)
    requires secret != [] && DecodeAll(body) == Ok(attrs) && AtMostOneMA(attrs) && PasswordsFit(attrs)
    ensures s.body == body && FindMA(body) == Ok(s.off) && (s.off.Some? <==> HasMA(attrs))
    ensures SerializeAttributes(md5, ACCESS_REQUEST, auth, secret, Revealed(md5, auth, secret, attrs)) == Ok(s)
  {
    s := Section(body, MAOffset(attrs));
    RevealedSerializes(md5, auth, secret, body, attrs);
  }

  lemma AcceptedAccessAt(md5: Hash, hmac: Mac, raw: bytes, attrs: seq<Attribute>, secret: bytes, anyAuth: Block)
    requires secret != [] && 20 <= |raw| <= MaxLengthForCode(raw[0]) && Uint16(raw[2..4]) == |raw|
    requires raw[0] == ACCESS_REQUEST && DecodeAll(raw[20..]) == Ok(attrs) && AtMostOneMA(attrs) && PasswordsFit(attrs)
    requires HasMA(attrs) ==> VerifyMessageAuthenticator(hmac, raw, anyAuth, secret).Ok?
    ensures Marshaled(md5, hmac, Message(raw[0], raw[1], raw[4..20], Revealed(md5, raw[4..20], secret, attrs)), secret) == Ok(raw)
  {
    var s := RevealedSection(md5, raw[4..20], secret, raw[20..], attrs);
    AccessAlready(md5, hmac, raw, Revealed(md5, raw[4..20], secret, attrs), s, secret, anyAuth);
  }

  // An Access-Request without trailing octets whose passwords have a length that hiding
  // produces, and whose only Message-Authenticator, if any, verifies, is what Marshal
  // emits for the packet with the revealed passwords.
  lemma AcceptedAccessIsMarshaled(md5: Hash, hmac: Mac, raw: bytes, secret: bytes, anyAuth: Block)
    requires secret != [] && |raw| >= 20 && Uint16(raw[2..4]) == |raw| && FamilyOf(raw[0]).AccessReq?
    requires SoundAccess(md5, hmac, raw, secret, anyAuth)
    ensures (var r := Unmarshaled(md5, raw, secret).value;
             Marshaled(md5, hmac, r.(attrs := Revealed(md5, r.auth, secret, r.attrs)), secret) == Ok(raw))
  {
    var r := Unmarshaled(md5, raw, secret).value;
    AcceptedHeader(md5, raw, secret);
    ReadAttributes(md5, raw, secret);
    AcceptedAccessAt(md5, hmac, raw, r.attrs, secret, anyAuth);
  }

  lemma MarshaledAccessSound(md5: Hash, hmac: Mac, m: Message, secret: bytes, anyAuth: Block)
    requires FamilyOf(m.code).AccessReq? && RoomForMA(m.attrs) && Marshaled(md5, hmac, m, secret).Ok?
    ensures (var raw := Marshaled(md5, hmac, m, secret).value;
             SoundAccess(md5, hmac, raw, secret, anyAuth) && RoomForMA(Unmarshaled(md5, raw, secret).value.attrs))
  {
    RequestAccepted(md5, hmac, m, secret, anyAuth);
    MarshaledDecodes(md5, hmac, m, secret);
    MarshaledHasMA(md5, hmac, m, secret, anyAuth);
    SerializeExactly(md5, m.code, m.auth, secret, m.attrs);
    var raw := Marshaled(md5, hmac, m, secret).value;
    var ws := WireList(md5, m.code, m.auth, secret, m.attrs);
    var mac: Block :| Unmarshaled(md5, raw, secret) == Ok(Message(m.code, m.id, raw[4..20], SetMA(ws, mac)));
    SetMAFits(ws, mac);
    WirePasswordsFit(md5, m.code, m.auth, secret, m.attrs, mac);
  }

  lemma WirePasswordsFit(md5: Hash, code: byte, auth: Block, secret: bytes, attrs: seq<Attribute>, mac: Block)
    requires FamilyOf(code).AccessReq? && Marshalable(code, attrs)
    requires RoomForMA(WireList(md5, code, auth, secret, attrs))
    ensures (var ys := SetMA(WireList(md5, code, auth, secret, attrs), mac); PasswordsFit(ys) && AtMostOneMA(ys))
  {
    var ys := SetMA(WireList(md5, code, auth, secret, attrs), mac);
    forall i | 0 <= i < |attrs|
      ensures ys[i].typ == attrs[i].typ && PasswordFits(ys[i])
    {
      assert ValueFits(code, attrs[i]);
    }
  }

  // An Access-Request without trailing octets passes, with at most one full-size
  // Message-Authenticator and passwords of a length that hiding produces, exactly when
  // some packet marshals to it.
  lemma AccessAcceptedIff(md5: Hash, hmac: Mac, raw: bytes, secret: bytes, anyAuth: Block)
    requires secret != [] && |raw| >= 20 && Uint16(raw[2..4]) == |raw| && FamilyOf(raw[0]).AccessReq?
    ensures SoundAccess(md5, hmac, raw, secret, anyAuth) && RoomForMA(Unmarshaled(md5, raw, secret).value.attrs)
       <==> exists m: Message ::
              m.code == raw[0] && RoomForMA(m.attrs) && Marshaled(md5, hmac, m, secret) == Ok(raw)
  {
    if SoundAccess(md5, hmac, raw, secret, anyAuth) && RoomForMA(Unmarshaled(md5, raw, secret).value.attrs) {
      var r := Unmarshaled(md5, raw, secret).value;
      AcceptedAccessIsMarshaled(md5, hmac, raw, secret, anyAuth);
      AcceptedHeader(md5, raw, secret);
      RevealedRoom(md5, r.auth, secret, r.attrs);
      assert r.(attrs := Revealed(md5, r.auth, secret, r.attrs)).code == raw[0];
    }
    if m: Message :| m.code == raw[0] && RoomForMA(m.attrs) && Marshaled(md5, hmac, m, secret) == Ok(raw) {
      MarshaledAccessSound(md5, hmac, m, secret, anyAuth);
    }
  }

  lemma RevealedRoom(md5: Hash, auth: Block, secret: bytes, attrs: seq<Attribute>)
    requires RoomForMA(attrs)
    ensures RoomForMA(Revealed(md5, auth, secret, attrs))
  {
    var rs := Revealed(md5, auth, secret, attrs);
    forall i | 0 <= i < |rs| && IsMA(rs[i])
      ensures |rs[i].value| >= 16
    {
      assert rs[i] == Shown(md5, auth, secret, attrs[i]) && IsMA(attrs[i]);
    }
  }
}
