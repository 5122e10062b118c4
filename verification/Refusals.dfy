// Which error comes back, exactly when (packet/attribute.go, packet/packet.go,
// packet/extended.go, crypto and protocol/verify.go).
module Refusals {
  import opened Bytes
  import opened Wire
  import opened Crypto
  import opened Attributes
  import opened Walks
  import opened Serialize
  import opened Packet
  import opened Panics
  import opened Tunnel
  import opened Extended

  // ----- attributes -----

  lemma AttributeRefusedIff(data: bytes)
    ensures UnmarshalAttribute(data) == Err(ShortBuffer) <==> |data| < 2
    ensures UnmarshalAttribute(data) == Err(InvalidAttribute) <==> |data| >= 2 && data[1] < 2
    ensures UnmarshalAttribute(data) == Err(InvalidLength) <==> |data| >= 2 && |data| < data[1] as int
    ensures UnmarshalAttribute(data).Ok? <==> |data| >= 2 && 2 <= data[1] as int <= |data|
  {
  }

  lemma AttributeTooLongIff(a: Attribute)
    ensures MarshalBinary(a) == Err(AttributeTooLong) <==> |a.value| > 253
    ensures MarshalBinary(a).Err? <==> |a.value| > 253
  {
  }

  lemma ExtendedRefusedIff(data: bytes)
    ensures UnmarshalExtended(data) == Err(ShortBuffer) <==> |data| < 2
    ensures UnmarshalExtended(data) == Err(InvalidAttribute)
       <==> |data| >= 2 && (data[0] !in {241, 242, 243, 244} || data[1] < if data[0] == 242 then 4 else 3)
    ensures UnmarshalExtended(data) == Err(InvalidLength)
       <==> |data| >= 2 && data[0] in {241, 242, 243, 244} && data[1] >= (if data[0] == 242 then 4 else 3) && data[1] as int > |data|
  {
  }

  lemma ExtendedMarshalsIff(e: ExtendedAttribute)
    ensures MarshalExtended(e) == Err(InvalidAttribute) <==> e.typ !in {241, 242, 243, 244}
    ensures MarshalExtended(e) == Err(AttributeTooLong)
       <==> e.typ in {241, 242, 243, 244} && |e.value| > if e.typ == 242 then 251 else 253
    ensures MarshalExtended(e).Ok? <==> e.typ in {241, 242, 243, 244} && |e.value| <= if e.typ == 242 then 251 else 253
  {
  }

  // ----- Marshal -----

  // A list whose attribute `i` is the first one that cannot be sent: its password or its
  // value is too long, or it is a second Message-Authenticator.
  lemma FirstOffence(md5: Hash, code: byte, auth: Block, secret: bytes, attrs: seq<Attribute>, i: nat)
    requires secret != [] && i < |attrs| && Marshalable(code, attrs[..i]) && !Marshalable(code, attrs[..i + 1])
    ensures (var a := attrs[i];
             SerializeAttributes(md5, code, auth, secret, attrs)
             == Err(if a.typ == 2 && code == 1 && |a.value| > 128 then PasswordTooLong
                    else if |a.value| > 253 then AttributeTooLong
                    else InvalidAttribute))
  {
    SerializeExactly(md5, code, auth, secret, attrs[..i]);
    SerializeExactly(md5, code, auth, secret, attrs[..i + 1]);
    FirstFailure(md5, code, auth, secret, attrs, i);
  }

  // A list that cannot be sent has such an attribute.
  lemma {:induction false} SomeOffence(code: byte, attrs: seq<Attribute>) returns (i: nat)
    requires !Marshalable(code, attrs)
    ensures i < |attrs| && Marshalable(code, attrs[..i]) && !Marshalable(code, attrs[..i + 1])
    decreases |attrs|
  {
    var front := attrs[..|attrs| - 1];
    if Marshalable(code, front) {
      i := |attrs| - 1;
      assert attrs[..i + 1] == attrs;
    } else {
      i := SomeOffence(code, front);
      assert front[..i] == attrs[..i] && front[..i + 1] == attrs[..i + 1];
    }
  }

  // The guards of Marshal, in their order.
  lemma MarshalRefusedIff(md5: Hash, hmac: Mac, m: Message, secret: bytes)
    ensures (var r := Marshaled(md5, hmac, m, secret);
             (r == Err(SecretEmpty) <==> secret == [])
             && (r == Err(InvalidCode) <==> secret != [] && m.code !in {1, 2, 3, 4, 5, 11, 40, 41, 42, 43, 44, 45})
             && (r == Err(InvalidLength) <==>
                   secret != [] && IsValidCode(m.code) && Marshalable(m.code, m.attrs)
                   && 20 + WireLength(m.code, m.attrs) > if m.code in {4, 5} then 4095 else 4096)
             && (r.Err? && r.error in {PasswordTooLong, AttributeTooLong, InvalidAttribute} <==>
                   secret != [] && IsValidCode(m.code) && !Marshalable(m.code, m.attrs)))
  {
    WireLengthIs(md5, m.code, m.auth, secret, m.attrs);
    if secret != [] {
      SerializeExactly(md5, m.code, m.auth, secret, m.attrs);
      if !Marshalable(m.code, m.attrs) {
        var i := SomeOffence(m.code, m.attrs);
        FirstOffence(md5, m.code, m.auth, secret, m.attrs, i);
      }
    }
  }

  // ----- Unmarshal and the checks -----

  // The guards of Unmarshal, in their order.
  lemma UnmarshalRefusedIff(md5: Hash, data: bytes, secret: bytes)
    ensures |data| < 20 ==> Unmarshaled(md5, data, secret) == Err(ShortBuffer)
    ensures |data| >= 20 ==>
              (var r, n := Unmarshaled(md5, data, secret), Uint16(data[2..4]);
               var largest := if data[0] in {4, 5} then 4095 else 4096;
               if !IsValidCode(data[0]) then r == Err(InvalidCode)
               else if n < 20 || n > largest then r == Err(InvalidLength)
               else if |data| < n then r == Err(ShortBuffer)
               else if DecodeAll(data[20..n]).Err? then r == Err(DecodeAll(data[20..n]).error)
               else r.Ok? || (r == Err(AuthenticatorMismatch) && data[0] in {4, 40, 43}))
  {
  }

  lemma AuthenticatorRefusedIff(md5: Hash, raw: bytes, requestAuth: Block, secret: bytes)
    ensures |raw| < 20 ==> VerifyResponseAuthenticator(md5, raw, requestAuth, secret) == Err(ShortBuffer)
    ensures |raw| >= 20 && 20 <= Uint16(raw[2..4]) ==>
              (var r, n := VerifyResponseAuthenticator(md5, raw, requestAuth, secret), Uint16(raw[2..4]);
               if raw[0] !in {2, 3, 5, 11, 41, 42, 44, 45} then r == Err(InvalidCode)
               else if n > |raw| then r == Err(ShortBuffer)
               else r.Ok? || r == Err(AuthenticatorMismatch))
  {
  }

  lemma MACRefusedIff(hmac: Mac, raw: bytes, requestAuth: Block, secret: bytes)
    ensures |raw| < 20 ==> VerifyMessageAuthenticator(hmac, raw, requestAuth, secret) == Err(ShortBuffer)
    ensures |raw| >= 20 && 20 <= Uint16(raw[2..4]) ==>
              (var r, n := VerifyMessageAuthenticator(hmac, raw, requestAuth, secret), Uint16(raw[2..4]);
               if n > |raw| then r == Err(ShortBuffer)
               else match FindMA(raw[20..n])
                    case Err(e) => r == Err(e)
                    case Ok(None) => r == Err(MessageAuthenticatorMissing)
                    case Ok(Some(off)) =>
                      if |raw| < 38 + off then r == Err(InvalidAttribute) else r.Ok? || r == Err(MessageAuthenticatorMismatch))
  {
  }

  // VerifyResponse passes on the error of the first of its four checks that fails.
  lemma ResponseRefusedIff(md5: Hash, hmac: Mac, raw: bytes, id: byte, requestAuth: Block, secret: bytes)
    ensures (var r, u := VerifyResponse(md5, hmac, raw, id, requestAuth, secret), Unmarshaled(md5, raw, secret);
             var a, b := VerifyResponseAuthenticator(md5, raw, requestAuth, secret),
                         VerifyMessageAuthenticator(hmac, raw, requestAuth, secret);
             if u.Err? then r == Err(u.error)
             else if u.value.id != id then r == Err(IdentifierMismatch)
             else if a.Err? then r == Err(a.error)
             else if HasMA(u.value.attrs) && b.Err? then r == Err(b.error)
             else r == u)
  {
  }

  // ----- hidden values -----

  lemma PasswordRefusedIff(md5: Hash, password: bytes, requestAuth: Block, secret: bytes)
    ensures EncryptUserPassword(md5, password, requestAuth, secret) == Err(SecretEmpty) <==> secret == []
    ensures EncryptUserPassword(md5, password, requestAuth, secret) == Err(PasswordTooLong) <==> secret != [] && |password| > 128
    ensures EncryptUserPassword(md5, password, requestAuth, secret).Ok? <==> secret != [] && |password| <= 128
  {
  }

  lemma CipherRefusedIff(md5: Hash, cipher: bytes, requestAuth: Block, secret: bytes)
    ensures DecryptUserPassword(md5, cipher, requestAuth, secret) == Err(SecretEmpty) <==> secret == []
    ensures DecryptUserPassword(md5, cipher, requestAuth, secret).Ok?
       <==> secret != [] && |cipher| in {16, 32, 48, 64, 80, 96, 112, 128}
    ensures DecryptUserPassword(md5, cipher, requestAuth, secret) == Err(InvalidAttribute)
       <==> secret != [] && |cipher| !in {16, 32, 48, 64, 80, 96, 112, 128}
  {
  }

  lemma TunnelRefusedIff(md5: Hash, password: bytes, requestAuth: Block, secret: bytes, r0: byte, r1: byte, padding: bytes)
    requires |padding| == SaltedPaddingLength(|password|)
    ensures (var t, k := EncryptTunnelPassword(md5, password, requestAuth, secret, r0, r1, padding),
                         EncryptMPPEKey(md5, password, requestAuth, secret, r0, r1, padding);
             (t == Err(SecretEmpty) <==> secret == []) && (k == Err(SecretEmpty) <==> secret == [])
             && (t == Err(PasswordTooLong) <==> secret != [] && |password| > 239)
             && (k == Err(InvalidAttribute) <==> secret != [] && |password| > 239)
             && (t.Ok? <==> secret != [] && |password| <= 239) && (k.Ok? ==> k == t) && (t.Ok? ==> k.Ok?))
  {
  }

  lemma SaltedRefusedIff(md5: Hash, value: bytes, requestAuth: Block, secret: bytes)
    ensures DecryptSalted(md5, value, requestAuth, secret) == Err(SecretEmpty) <==> secret == []
    ensures secret != [] && DecryptSalted(md5, value, requestAuth, secret).Err? ==>
              DecryptSalted(md5, value, requestAuth, secret) == Err(InvalidAttribute)
    ensures secret != [] && (|value| < 18 || |value| % 16 != 2) ==> DecryptSalted(md5, value, requestAuth, secret) == Err(InvalidAttribute)
  {
  }
}
