// Exactly when an honest packet survives: the packets for which the promises of
// Marshal, Unmarshal and VerifyResponse hold for every digest and every HMAC.
module Limits {
  import opened Bytes
  import opened Wire
  import opened Crypto
  import opened Attributes
  import opened Walks
  import opened Serialize
  import opened Packet
  import opened Exchange
  import opened Panics
  import opened Spill

  // A packet that hides no password and passes the guards of Marshal.
  ghost predicate Sendable(m: Message, secret: bytes) {
    Emittable(m, secret) && !FamilyOf(m.code).AccessReq?
  }

  lemma SendableSerializes(md5: Hash, m: Message, secret: bytes)
    requires Sendable(m, secret)
    ensures AllFit(m.attrs) && 20 + |Encode(m.attrs)| <= MaxLengthForCode(m.code)
    ensures SerializeAttributes(md5, m.code, m.auth, secret, m.attrs)
         == Ok(Section(Encode(m.attrs), MAOffset(m.attrs)))
  {
    NothingHidden(md5, m.code, m.auth, secret, m.attrs);
    WireLengthIs(md5, m.code, m.auth, secret, m.attrs);
    SerializeExactly(md5, m.code, m.auth, secret, m.attrs);
  }

  lemma SendableMarshals(md5: Hash, hmac: Mac, m: Message, secret: bytes)
    requires Sendable(m, secret) && RoomForMA(m.attrs)
    ensures Marshaled(md5, hmac, m, secret).Ok?
  {
    SendableSerializes(md5, m, secret);
    PatchedDecodes(m.attrs, Zeros(16));
  }

  // Such a packet makes Marshal panic exactly when its Message-Authenticator overruns
  // the section; otherwise it is signed.
  lemma SendablePanicsIff(md5: Hash, hmac: Mac, m: Message, secret: bytes)
    requires Sendable(m, secret)
    ensures Marshaled(md5, hmac, m, secret) == Err(RuntimePanic) <==> Overruns(m.attrs)
    ensures Marshaled(md5, hmac, m, secret).Ok? <==> !Overruns(m.attrs)
    ensures (var s := Section(Encode(m.attrs), MAOffset(m.attrs));
             !Overruns(m.attrs) ==> RoomAt(s) && Marshaled(md5, hmac, m, secret) == Ok(Signed(md5, hmac, m, s, secret)))
  {
    SendableSerializes(md5, m, secret);
  }

  // ----- trailing octets -----

  // Is the reply sent, and accepted with `pad` behind it, whatever the digests?
  ghost predicate AcceptedWithPadding(m: Message, secret: bytes, pad: bytes) {
    forall md5: Hash, hmac: Mac ::
      Marshaled(md5, hmac, m, secret).Ok?
      && VerifyResponse(md5, hmac, Marshaled(md5, hmac, m, secret).value + pad, m.id, m.auth, secret).Ok?
  }

  lemma PaddingUnseen(md5: Hash, raw: bytes, pad: bytes, requestAuth: Block, secret: bytes)
    requires 20 <= |raw| && Uint16(raw[2..4]) == |raw|
    ensures Unmarshaled(md5, raw + pad, secret) == Unmarshaled(md5, raw, secret)
    ensures VerifyResponseAuthenticator(md5, raw + pad, requestAuth, secret)
         == VerifyResponseAuthenticator(md5, raw, requestAuth, secret)
  {
    var all := raw + pad;
    assert all[2..4] == raw[2..4] && all[4..20] == raw[4..20] && all[20..|raw|] == raw[20..|raw|];
  }

  // A message whose padded copy reaches the HMAC is refused when the HMAC sees the padding.
  lemma PaddingSeen(hmac: Mac, raw: bytes, pad: bytes, off: nat, requestAuth: Block, secret: bytes)
    requires 20 + off + 18 <= |raw| && Uint16(raw[2..4]) == |raw| && FindMA(raw[20..]) == Ok(Some(off))
    requires raw[20 + off + 2..20 + off + 18] == Zeros(16)
    requires forall x: bytes :: |x| == |raw + pad| ==> hmac(secret, x) == ONES
    ensures VerifyMessageAuthenticator(hmac, raw + pad, requestAuth, secret) == Err(MessageAuthenticatorMismatch)
  {
    var all := raw + pad;
    assert all[2..4] == raw[2..4] && all[20..|raw|] == raw[20..];
    assert all[20 + off + 2..20 + off + 18] == Zeros(16);
    assert |MACInput(all, 20 + off, requestAuth)| == |all|;
    assert Zeros(16)[0] != ONES[0];
  }

  // A reply is accepted with octets beyond its Length exactly when it has no
  // Message-Authenticator: the HMAC covers the whole buffer. Without such octets a
  // reply is accepted exactly when its signature leaves every length intact.
  lemma PaddingIgnoredIff(m: Message, secret: bytes, pad: bytes)
    requires Sendable(m, secret) && IsResponseCode(m.code)
    ensures AcceptedWithPadding(m, secret, pad) <==> !HasMA(m.attrs) || (pad == [] && SignatureFits(m.attrs))
  {
    if RoomForMA(m.attrs) {
      FullSizePadding(m, secret, pad);
    } else {
      ShortPadding(m, secret, pad);
    }
  }

  lemma FullSizePadding(m: Message, secret: bytes, pad: bytes)
    requires Sendable(m, secret) && IsResponseCode(m.code) && RoomForMA(m.attrs)
    ensures SignatureFits(m.attrs)
    ensures AcceptedWithPadding(m, secret, pad) <==> !HasMA(m.attrs) || pad == []
  {
    if !HasMA(m.attrs) || pad == [] {
      forall md5: Hash, hmac: Mac
        ensures Marshaled(md5, hmac, m, secret).Ok?
        ensures VerifyResponse(md5, hmac, Marshaled(md5, hmac, m, secret).value + pad, m.id, m.auth, secret).Ok?
      {
        SendableMarshals(md5, hmac, m, secret);
        PaddingHarmless(md5, hmac, m, secret, pad);
      }
    } else {
      PaddingHarmful(m, secret, pad);
    }
  }

  // A reply without a Message-Authenticator of full size.
  lemma ShortPadding(m: Message, secret: bytes, pad: bytes)
    requires Sendable(m, secret) && IsResponseCode(m.code) && !RoomForMA(m.attrs)
    ensures HasMA(m.attrs)
    ensures AcceptedWithPadding(m, secret, pad) <==> pad == [] && SignatureFits(m.attrs)
  {
    var k := ShortMA(m.attrs);
    ShortOverrunsIff(m.attrs, k);
    if Overruns(m.attrs) {
      SendablePanicsIff((_: bytes) => ONES, Flat(), m, secret);
    } else if |m.attrs[k].value| < 15 {
      BrokenLengthRefused(m, secret, pad, k);
    } else if pad == [] {
      forall md5: Hash, hmac: Mac
        ensures Marshaled(md5, hmac, m, secret).Ok?
        ensures VerifyResponse(md5, hmac, Marshaled(md5, hmac, m, secret).value + pad, m.id, m.auth, secret).Ok?
      {
        OneOctetSpill(md5, hmac, m, secret, k);
        assert Marshaled(md5, hmac, m, secret).value + pad == Marshaled(md5, hmac, m, secret).value;
      }
    } else {
      OneOctetPadding(m, secret, pad, k);
    }
  }

  lemma PaddingHarmless(md5: Hash, hmac: Mac, m: Message, secret: bytes, pad: bytes)
    requires Sendable(m, secret) && IsResponseCode(m.code) && RoomForMA(m.attrs)
    requires Marshaled(md5, hmac, m, secret).Ok? && (!HasMA(m.attrs) || pad == [])
    ensures VerifyResponse(md5, hmac, Marshaled(md5, hmac, m, secret).value + pad, m.id, m.auth, secret).Ok?
  {
    ReplyAccepted(md5, hmac, m, secret);
    var raw := Marshaled(md5, hmac, m, secret).value;
    if pad == [] {
      assert raw + pad == raw;
    } else {
      MarshaledShape(md5, hmac, m, secret);
      PaddingUnseen(md5, raw, pad, m.auth, secret);
      assert VerifyResponse(md5, hmac, raw, m.id, m.auth, secret).value.attrs == m.attrs;
    }
  }

  lemma MarshaledShape(md5: Hash, hmac: Mac, m: Message, secret: bytes)
    requires RoomForMA(m.attrs) && Marshaled(md5, hmac, m, secret).Ok?
    ensures (var raw := Marshaled(md5, hmac, m, secret).value;
             20 <= |raw| && raw[0] == m.code && Uint16(raw[2..4]) == |raw|)
  {
    MarshaledDecodes(md5, hmac, m, secret);
    var s := SerializeAttributes(md5, m.code, m.auth, secret, m.attrs).value;
    SignedParts(md5, hmac, m, s, secret);
  }

  lemma SendableDecodes(md5: Hash, hmac: Mac, m: Message, secret: bytes)
    requires Sendable(m, secret) && RoomForMA(m.attrs)
    ensures (var s := Section(Encode(m.attrs), MAOffset(m.attrs));
             RoomAt(s) && Marshaled(md5, hmac, m, secret) == Ok(Signed(md5, hmac, m, s, secret))
             && DecodeAll(SignedBody(md5, hmac, m, s, secret)) == Ok(SetMA(m.attrs, MACOf(md5, hmac, m, s, secret)))
             && FindMA(SignedBody(md5, hmac, m, s, secret)) == Ok(s.off)
             && (s.off.Some? <==> HasMA(m.attrs)))
  {
    SendableMarshals(md5, hmac, m, secret);
    SendableSerializes(md5, m, secret);
    MarshaledDecodes(md5, hmac, m, secret);
    NothingHidden(md5, m.code, m.auth, secret, m.attrs);
  }

  lemma ValueInFrame(raw: bytes, body: bytes, off: nat)
    requires off + 18 <= |body| && |raw| == 20 + |body| && raw[20..] == Overwrite(body, off + 2, Zeros(16))
    ensures raw[20 + off + 2..20 + off + 18] == Zeros(16)
  {
    OverwriteTwice(body, off + 2, Zeros(16), Zeros(16));
    assert raw[20..][off + 2..off + 18] == raw[20 + off + 2..20 + off + 18];
  }

  lemma ZeroSigned(md5: Hash, hmac: Mac, m: Message, s: Section, secret: bytes)
    requires RoomAt(s) && s.off.Some? && MACOf(md5, hmac, m, s, secret) == Zeros(16)
    ensures (var raw, off := Signed(md5, hmac, m, s, secret), s.off.value;
             |raw| == 20 + |s.body| && Uint16(raw[2..4]) == |raw| && raw[20..] == SignedBody(md5, hmac, m, s, secret)
             && 20 + off + 18 <= |raw| && raw[20 + off + 2..20 + off + 18] == Zeros(16))
  {
    SignedParts(md5, hmac, m, s, secret);
    ValueInFrame(Signed(md5, hmac, m, s, secret), s.body, s.off.value);
  }

  // A reply signed with a zero value, padded, under an HMAC that tells lengths apart.
  lemma PaddedReplyRefused(md5: Hash, hmac: Mac, m: Message, s: Section, attrs: seq<Attribute>, secret: bytes, pad: bytes)
    requires IsResponseCode(m.code) && RoomAt(s) && s.off.Some? && 20 + |s.body| <= MaxLengthForCode(m.code)
    requires FindMA(SignedBody(md5, hmac, m, s, secret)) == Ok(s.off)
    requires DecodeAll(SignedBody(md5, hmac, m, s, secret)) == Ok(attrs) && HasMA(attrs)
    requires MACOf(md5, hmac, m, s, secret) == Zeros(16)
    requires forall x: bytes :: |x| == 20 + |s.body| + |pad| ==> hmac(secret, x) == ONES
    ensures VerifyResponse(md5, hmac, Signed(md5, hmac, m, s, secret) + pad, m.id, m.auth, secret).Err?
  {
    var raw := Signed(md5, hmac, m, s, secret);
    ZeroSigned(md5, hmac, m, s, secret);
    PaddingSeen(hmac, raw, pad, s.off.value, m.auth, secret);
    PaddingUnseen(md5, raw, pad, m.auth, secret);
    StructureAt(raw, attrs);
  }

  // An HMAC that tells messages of `n` octets from all others.
  function LengthTelling(n: nat): Mac {
    (_, x: bytes) => if |x| == n then Zeros(16) else ONES
  }

  lemma TellsLengths(md5: Hash, m: Message, s: Section, secret: bytes, pad: bytes)
    requires RoomAt(s) && pad != []
    ensures MACOf(md5, LengthTelling(20 + |s.body|), m, s, secret) == Zeros(16)
    ensures forall x: bytes :: |x| == 20 + |s.body| + |pad| ==> LengthTelling(20 + |s.body|)(secret, x) == ONES
  {
  }

  lemma PaddingHarmful(m: Message, secret: bytes, pad: bytes)
    requires Sendable(m, secret) && IsResponseCode(m.code) && RoomForMA(m.attrs)
    requires HasMA(m.attrs) && pad != []
    ensures !AcceptedWithPadding(m, secret, pad)
  {
    var s := Section(Encode(m.attrs), MAOffset(m.attrs));
    var md5: Hash, hmac := _ => Zeros(16), LengthTelling(20 + |s.body|);
    SendableDecodes(md5, hmac, m, secret);
    TellsLengths(md5, m, s, secret, pad);
    SetMAFits(m.attrs, Zeros(16));
    PaddedReplyRefused(md5, hmac, m, s, SetMA(m.attrs, Zeros(16)), secret, pad);
  }

  // A request is read the same whatever follows its Length.
  lemma RequestPaddingIgnored(md5: Hash, hmac: Mac, m: Message, secret: bytes, pad: bytes)
    requires Marshaled(md5, hmac, m, secret).Ok?
    ensures Unmarshaled(md5, Marshaled(md5, hmac, m, secret).value + pad, secret)
         == Unmarshaled(md5, Marshaled(md5, hmac, m, secret).value, secret)
  {
    SignedParts(md5, hmac, m, SerializeAttributes(md5, m.code, m.auth, secret, m.attrs).value, secret);
    PaddingUnseen(md5, Marshaled(md5, hmac, m, secret).value, pad, m.auth, secret);
  }

  // ----- the length of the Message-Authenticator -----

  // Is the self-signed request sent, and accepted by its receiver, whatever the digests?
  ghost predicate SelfSignedAccepted(m: Message, secret: bytes) {
    forall md5: Hash, hmac: Mac ::
      Marshaled(md5, hmac, m, secret).Ok? && Unmarshaled(md5, Marshaled(md5, hmac, m, secret).value, secret).Ok?
  }

  // A self-signed request is always accepted exactly when its Message-Authenticator,
  // if any, has the standard 16 octets. Marshal zeroes 16 octets whatever the length,
  // Unmarshal only those of an attribute of Length 18; a short one spills over what
  // follows, or makes Marshal panic.
  lemma SelfSignedAcceptedIff(m: Message, secret: bytes)
    requires Sendable(m, secret) && IsSelfSigned(m.code)
    ensures SelfSignedAccepted(m, secret) <==> StandardMA(m.attrs)
  {
    if StandardMA(m.attrs) {
      forall md5: Hash, hmac: Mac
        ensures Marshaled(md5, hmac, m, secret).Ok?
        ensures Unmarshaled(md5, Marshaled(md5, hmac, m, secret).value, secret).Ok?
      {
        SendableMarshals(md5, hmac, m, secret);
        RequestAccepted(md5, hmac, m, secret, Zeros(16));
      }
    } else if Overruns(m.attrs) {
      SendablePanicsIff((_: bytes) => ONES, Flat(), m, secret);
    } else {
      SendableSerializes((_: bytes) => ONES, m, secret);
      if RoomForMA(m.attrs) {
        LongNotZeroed(m.attrs);
      } else {
        var k := ShortMA(m.attrs);
        SpillNotZeroed(m.attrs, k);
      }
      NonStandardRefused(m, secret);
    }
  }

  lemma DigestInputsDiffer(prefix: bytes, a: bytes, b: bytes, suffix: bytes, i: nat)
    requires |a| == |b| && i < |a| && a[i] != b[i]
    ensures prefix + a + suffix != prefix + b + suffix
  {
    assert (prefix + a + suffix)[|prefix| + i] == a[i];
    assert (prefix + b + suffix)[|prefix| + i] == b[i];
  }

  // What an authenticator digests, for a given Message-Authenticator value.
  function DigestInput(m: Message, s: Section, auth: Block, value: Block, secret: bytes): bytes
    requires RoomAt(s)
  {
    [m.code, m.id] + PutUint16(20 + |s.body|) + auth + Patched(s.body, s.off, value) + secret
  }

  lemma SelfSignedDigests(md5: Hash, hmac: Mac, m: Message, s: Section, secret: bytes)
    requires IsSelfSigned(m.code) && RoomAt(s)
    ensures SentAuthenticator(md5, hmac, m, s, secret) == md5(DigestInput(m, s, Zeros(16), Zeros(16), secret))
  {
  }

  // A digest that tells one input from all others.
  function Telling(x0: bytes): Hash {
    x => if x == x0 then Zeros(16) else ONES
  }

  lemma TellsApart(x0: bytes, x: bytes)
    requires x != x0
    ensures Telling(x0)(x0) != Telling(x0)(x)
  {
    assert Zeros(16)[0] != ONES[0];
  }

  // An HMAC that tells nothing.
  function Flat(): Mac {
    (_, _) => ONES
  }

  lemma ConstantMAC(md5: Hash, m: Message, s: Section, secret: bytes)
    requires RoomAt(s)
    ensures MACOf(md5, Flat(), m, s, secret) == ONES
  {
  }

  // The receiver digests what it zeroed, the sender what it cleared.
  lemma DigestsApart(md5: Hash, hmac: Mac, m: Message, s: Section, secret: bytes)
    requires IsSelfSigned(m.code) && RoomAt(s) && 20 + |s.body| <= MaxLengthForCode(m.code)
    requires md5 == Telling(DigestInput(m, s, Zeros(16), Zeros(16), secret))
    requires ZeroMA(SignedBody(md5, hmac, m, s, secret)) != Patched(s.body, s.off, Zeros(16))
    ensures Unmarshaled(md5, Signed(md5, hmac, m, s, secret), secret).Err?
  {
    var raw := Signed(md5, hmac, m, s, secret);
    var zeroed := ZeroMA(SignedBody(md5, hmac, m, s, secret));
    SignedParts(md5, hmac, m, s, secret);
    SelfSignedDigests(md5, hmac, m, s, secret);
    assert raw[20..|raw|] == raw[20..];
    OtherInput(m, s, zeroed, secret);
    var other := [m.code, m.id] + PutUint16(20 + |s.body|) + Zeros(16) + zeroed + secret;
    TellsApart(DigestInput(m, s, Zeros(16), Zeros(16), secret), other);
  }

  lemma OtherInput(m: Message, s: Section, zeroed: bytes, secret: bytes)
    requires RoomAt(s) && |zeroed| == |s.body| && zeroed != Patched(s.body, s.off, Zeros(16))
    ensures [m.code, m.id] + PutUint16(20 + |s.body|) + Zeros(16) + zeroed + secret != DigestInput(m, s, Zeros(16), Zeros(16), secret)
  {
    var cleared := Patched(s.body, s.off, Zeros(16));
    var i :| 0 <= i < |zeroed| && zeroed[i] != cleared[i];
    DigestInputsDiffer([m.code, m.id] + PutUint16(20 + |s.body|) + Zeros(16), zeroed, cleared, secret, i);
  }

  lemma NonStandardRefused(m: Message, secret: bytes)
    requires Sendable(m, secret) && IsSelfSigned(m.code) && !Overruns(m.attrs)
    requires ZeroMA(Patched(Encode(m.attrs), MAOffset(m.attrs), ONES))
          != Patched(Encode(m.attrs), MAOffset(m.attrs), Zeros(16))
    ensures !SelfSignedAccepted(m, secret)
  {
    var s := Section(Encode(m.attrs), MAOffset(m.attrs));
    SendablePanicsIff((_: bytes) => ONES, Flat(), m, secret);
    var md5 := Telling(DigestInput(m, s, Zeros(16), Zeros(16), secret));
    var hmac := Flat();
    SendablePanicsIff(md5, hmac, m, secret);
    ConstantMAC(md5, m, s, secret);
    DigestsApart(md5, hmac, m, s, secret);
  }

  // ----- a Message-Authenticator shorter than its signature -----

  ghost predicate SameButMA(xs: seq<Attribute>, ys: seq<Attribute>) {
    |xs| == |ys|
    && forall i :: 0 <= i < |xs| ==> ys[i].typ == xs[i].typ && (IsMA(xs[i]) || ys[i] == xs[i])
  }

  // Is the reply sent, and does it reach the client with its attributes, whatever the
  // digests?
  ghost predicate ReplyRecovered(m: Message, secret: bytes) {
    forall md5: Hash, hmac: Mac ::
      Marshaled(md5, hmac, m, secret).Ok?
      && (var r := VerifyResponse(md5, hmac, Marshaled(md5, hmac, m, secret).value, m.id, m.auth, secret);
          r.Ok? && SameButMA(m.attrs, r.value.attrs))
  }

  // Marshal never checks the length of the Message-Authenticator. The reply survives
  // exactly when the attribute has room for the signature; otherwise the signature
  // spills over the next attribute, or Marshal panics.
  lemma ReplyRecoveredIff(m: Message, secret: bytes)
    requires Sendable(m, secret) && IsResponseCode(m.code)
    ensures ReplyRecovered(m, secret) <==> RoomForMA(m.attrs)
  {
    if RoomForMA(m.attrs) {
      forall md5: Hash, hmac: Mac
        ensures Marshaled(md5, hmac, m, secret).Ok?
        ensures (var r := VerifyResponse(md5, hmac, Marshaled(md5, hmac, m, secret).value, m.id, m.auth, secret);
                 r.Ok? && SameButMA(m.attrs, r.value.attrs))
      {
        SendableMarshals(md5, hmac, m, secret);
        ReplyAccepted(md5, hmac, m, secret);
        var mac, auth: Block :|
          VerifyResponse(md5, hmac, Marshaled(md5, hmac, m, secret).value, m.id, m.auth, secret)
          == Ok(Message(m.code, m.id, auth, SetMA(m.attrs, mac)));
        assert SameButMA(m.attrs, SetMA(m.attrs, mac));
      }
    } else if Overruns(m.attrs) {
      SendablePanicsIff((_: bytes) => ONES, Flat(), m, secret);
    } else {
      SpilledSignature(m, secret);
    }
  }

  lemma SpillBytes(e: bytes, f: bytes, o: nat, n: nat, next: nat, t: byte, c: byte)
    requires o + 18 <= |e| && n < 16 && e[o + 1] as int == 2 + n
    requires o + 2 + next < |f| && f[o + 1] as int == 2 + next && f[o + 2 + next] == t
    requires c != t
    ensures f != Overwrite(e, o + 2, seq(16, _ => c))
  {
    var g := Overwrite(e, o + 2, seq(16, _ => c));
    assert g[o + 1] == e[o + 1] && g[o + 2 + n] == c;
  }

  // An encoding with a foreign octet where the type after k should stand.
  lemma SpillIsSeen(xs: seq<Attribute>, ys: seq<Attribute>, k: nat, c: byte)
    requires AllFit(xs) && AllFit(ys) && SameButMA(xs, ys)
    requires k + 1 < |xs| && k == FirstMA(xs) && |xs[k].value| < 16 && c != xs[k + 1].typ
    requires |Encode(xs[..k])| + 18 <= |Encode(xs)|
    ensures Encode(ys) != Overwrite(Encode(xs), |Encode(xs[..k])| + 2, seq(16, _ => c))
  {
    assert ys[..k] == xs[..k];
    assert Fits(ys[k]) && Fits(xs[k]);
    NextHeader(xs, k);
    NextHeader(ys, k);
    SpillBytes(Encode(xs), Encode(ys), |Encode(xs[..k])|, |xs[k].value|, |ys[k].value|, ys[k + 1].typ, c);
  }

  lemma VerifiedAttributes(md5: Hash, hmac: Mac, raw: bytes, id: byte, requestAuth: Block, secret: bytes)
    requires |raw| >= 20 && Uint16(raw[2..4]) == |raw|
    ensures VerifyResponse(md5, hmac, raw, id, requestAuth, secret).Ok? ==>
              DecodeAll(raw[20..]) == Ok(VerifyResponse(md5, hmac, raw, id, requestAuth, secret).value.attrs)
  {
    assert raw[20..|raw|] == raw[20..];
  }

  lemma SpilledSignature(m: Message, secret: bytes)
    requires Sendable(m, secret) && IsResponseCode(m.code) && !RoomForMA(m.attrs) && !Overruns(m.attrs)
    ensures !ReplyRecovered(m, secret)
  {
    var k := ShortMA(m.attrs);
    ShortOverrunsIff(m.attrs, k);
    var c: byte := if m.attrs[k + 1].typ == 0 then 1 else 0;
    var s := Section(Encode(m.attrs), MAOffset(m.attrs));
    var md5: Hash := _ => Zeros(16);
    var hmac: Mac := (_, _) => seq(16, _ => c);
    SendableSerializes(md5, m, secret);
    var raw := Signed(md5, hmac, m, s, secret);
    assert Marshaled(md5, hmac, m, secret) == Ok(raw);
    SignedParts(md5, hmac, m, s, secret);
    VerifiedAttributes(md5, hmac, raw, m.id, m.auth, secret);
    SpillNeverRecovered(m.attrs, s, raw[20..], k, c);
  }

  lemma SpillNeverRecovered(attrs: seq<Attribute>, s: Section, body: bytes, k: nat, c: byte)
    requires AllFit(attrs) && k + 1 < |attrs| && k == FirstMA(attrs) && |attrs[k].value| < 16 && c != attrs[k + 1].typ
    requires s == Section(Encode(attrs), MAOffset(attrs)) && RoomAt(s) && s.off.Some?
    requires body == Patched(s.body, s.off, seq(16, _ => c))
    ensures DecodeAll(body).Ok? ==> !SameButMA(attrs, DecodeAll(body).value)
  {
    if DecodeAll(body).Ok? && SameButMA(attrs, DecodeAll(body).value) {
      EncodeDecode(body);
      SpillIsSeen(attrs, DecodeAll(body).value, k, c);
      assert false;
    }
  }

  // ----- where the signature spills -----

  lemma UnreadableRefused(md5: Hash, hmac: Mac, m: Message, s: Section, secret: bytes, pad: bytes)
    requires RoomAt(s) && DecodeAll(SignedBody(md5, hmac, m, s, secret)).Err?
    ensures VerifyResponse(md5, hmac, Signed(md5, hmac, m, s, secret) + pad, m.id, m.auth, secret).Err?
  {
    var raw := Signed(md5, hmac, m, s, secret);
    SignedParts(md5, hmac, m, s, secret);
    PaddingUnseen(md5, raw, pad, m.auth, secret);
    assert raw[20..|raw|] == raw[20..];
  }

  lemma BrokenLengthRefused(m: Message, secret: bytes, pad: bytes, k: nat)
    requires Sendable(m, secret) && !Overruns(m.attrs)
    requires k == FirstMA(m.attrs) < |m.attrs| && |m.attrs[k].value| < 15
    ensures !AcceptedWithPadding(m, secret, pad)
  {
    var md5: Hash, hmac := _ => ONES, Flat();
    var s := Section(Encode(m.attrs), MAOffset(m.attrs));
    SendableSerializes(md5, m, secret);
    SendablePanicsIff(md5, hmac, m, secret);
    ConstantMAC(md5, m, s, secret);
    BrokenLength(m.attrs, k);
    UnreadableRefused(md5, hmac, m, s, secret, pad);
  }

  // Such a reply is accepted for all digests, the next attribute under a wrong type.
  lemma OneOctetSpill(md5: Hash, hmac: Mac, m: Message, secret: bytes, k: nat)
    requires Sendable(m, secret) && IsResponseCode(m.code)
    requires k == FirstMA(m.attrs) && k + 1 < |m.attrs| && |m.attrs[k].value| == 15
    ensures Marshaled(md5, hmac, m, secret).Ok?
    ensures VerifyResponse(md5, hmac, Marshaled(md5, hmac, m, secret).value, m.id, m.auth, secret).Ok?
  {
    var s := Section(Encode(m.attrs), MAOffset(m.attrs));
    ShortOverrunsIff(m.attrs, k);
    SendableSerializes(md5, m, secret);
    SendablePanicsIff(md5, hmac, m, secret);
    var mac := MACOf(md5, hmac, m, s, secret);
    RetypedDecodes(m.attrs, k, mac);
    SignedReplyAccepted(md5, hmac, m, s, Retyped(m.attrs, k, mac), secret);
  }

  lemma OneOctetPadding(m: Message, secret: bytes, pad: bytes, k: nat)
    requires Sendable(m, secret) && IsResponseCode(m.code) && pad != []
    requires k == FirstMA(m.attrs) && k + 1 < |m.attrs| && |m.attrs[k].value| == 15
    ensures !AcceptedWithPadding(m, secret, pad)
  {
    var s := Section(Encode(m.attrs), MAOffset(m.attrs));
    var md5: Hash, hmac := _ => Zeros(16), LengthTelling(20 + |s.body|);
    ShortOverrunsIff(m.attrs, k);
    SendableSerializes(md5, m, secret);
    SendablePanicsIff(md5, hmac, m, secret);
    TellsLengths(md5, m, s, secret, pad);
    RetypedDecodes(m.attrs, k, Zeros(16));
    PaddedReplyRefused(md5, hmac, m, s, Retyped(m.attrs, k, Zeros(16)), secret, pad);
  }

  // ----- a reply and the request it answers -----

  // Is the reply sent, and accepted by a client whose request had `requestAuth`,
  // whatever the digests?
  ghost predicate AcceptedFor(m: Message, secret: bytes, requestAuth: Block) {
    forall md5: Hash, hmac: Mac ::
      Marshaled(md5, hmac, m, secret).Ok?
      && VerifyResponse(md5, hmac, Marshaled(md5, hmac, m, secret).value, m.id, requestAuth, secret).Ok?
  }

  lemma OtherRequestRefused(md5: Hash, m: Message, s: Section, requestAuth: Block, secret: bytes)
    requires IsResponseCode(m.code) && RoomAt(s) && requestAuth != m.auth
    requires md5 == Telling(DigestInput(m, s, m.auth, ONES, secret))
    ensures VerifyResponse(md5, (_, _) => ONES, Signed(md5, Flat(), m, s, secret), m.id, requestAuth, secret).Err?
  {
    var hmac := Flat();
    var raw := Signed(md5, hmac, m, s, secret);
    ConstantMAC(md5, m, s, secret);
    SignedParts(md5, hmac, m, s, secret);
    assert raw[20..|raw|] == raw[20..];
    InputsDiffer(m, s, requestAuth, secret);
    TellsApart(DigestInput(m, s, m.auth, ONES, secret), DigestInput(m, s, requestAuth, ONES, secret));
  }

  lemma InputsDiffer(m: Message, s: Section, requestAuth: Block, secret: bytes)
    requires RoomAt(s) && requestAuth != m.auth
    ensures DigestInput(m, s, requestAuth, ONES, secret) != DigestInput(m, s, m.auth, ONES, secret)
  {
    assert DigestInput(m, s, requestAuth, ONES, secret)[4..20] == requestAuth;
    assert DigestInput(m, s, m.auth, ONES, secret)[4..20] == m.auth;
  }

  lemma NoPadding(m: Message, secret: bytes)
    ensures AcceptedFor(m, secret, m.auth) <==> AcceptedWithPadding(m, secret, [])
  {
    forall md5: Hash, hmac: Mac | Marshaled(md5, hmac, m, secret).Ok?
      ensures Marshaled(md5, hmac, m, secret).value + [] == Marshaled(md5, hmac, m, secret).value
    {
      SameWithNothing(Marshaled(md5, hmac, m, secret).value);
    }
  }

  lemma SameWithNothing(raw: bytes)
    ensures raw + [] == raw
  {
  }

  // A reply is accepted exactly by the client whose Request Authenticator it was made
  // for, given that its signature leaves every length intact.
  lemma ReplyBoundToRequestIff(m: Message, secret: bytes, requestAuth: Block)
    requires Sendable(m, secret) && IsResponseCode(m.code)
    ensures AcceptedFor(m, secret, requestAuth) <==> requestAuth == m.auth && SignatureFits(m.attrs)
  {
    if requestAuth == m.auth {
      PaddingIgnoredIff(m, secret, []);
      NoPadding(m, secret);
    } else if !Overruns(m.attrs) {
      var s := Section(Encode(m.attrs), MAOffset(m.attrs));
      SendablePanicsIff((_: bytes) => ONES, Flat(), m, secret);
      var md5 := Telling(DigestInput(m, s, m.auth, ONES, secret));
      SendablePanicsIff(md5, Flat(), m, secret);
      OtherRequestRefused(md5, m, s, requestAuth, secret);
    } else {
      SendablePanicsIff((_: bytes) => ONES, Flat(), m, secret);
    }
  }
}
