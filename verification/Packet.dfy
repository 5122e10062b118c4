// packet/packet.go: signing a packet on the way out, checking it on the way in.
module Packet {
  import opened Bytes
  import opened Wire
  import opened Crypto
  import opened Attributes
  import opened Walks
  import opened Serialize

  // The fields of a Packet, as a value.
  datatype Message = Message(code: byte, id: byte, auth: Block, attrs: seq<Attribute>)

  // ----- Marshal -----

  // The authenticator the HMAC covers.
  function RequestAuthenticator(md5: Hash, m: Message, cleared: bytes, secret: bytes): Block
    requires 20 + |cleared| < 0x1_0000
  {
    if IsSelfSigned(m.code) then AccountingRequestAuthenticator(md5, m.code, m.id, 20 + |cleared|, cleared, secret)
    else m.auth
  }

  predicate RoomAt(s: Section) {
    20 + |s.body| < 0x1_0000 && (s.off.Some? ==> s.off.value + 18 <= |s.body|)
  }

  // The HMAC over the packet with a zeroed value and the Request Authenticator in place.
  function MACOf(md5: Hash, hmac: Mac, m: Message, s: Section, secret: bytes): Block
    requires RoomAt(s)
  {
    var cleared := Patched(s.body, s.off, Zeros(16));
    hmac(secret, Frame(m.code, m.id, 20 + |s.body|, RequestAuthenticator(md5, m, cleared, secret), cleared))
  }

  // The attribute section with its Message-Authenticator filled in.
  function SignedBody(md5: Hash, hmac: Mac, m: Message, s: Section, secret: bytes): (b: bytes)
    requires RoomAt(s)
    ensures |b| == |s.body|
  {
    Patched(s.body, s.off, MACOf(md5, hmac, m, s, secret))
  }

  function SentAuthenticator(md5: Hash, hmac: Mac, m: Message, s: Section, secret: bytes): Block
    requires RoomAt(s)
  {
    if IsResponseCode(m.code)
    then ResponseAuthenticator(md5, m.code, m.id, 20 + |s.body|, m.auth, SignedBody(md5, hmac, m, s, secret), secret)
    else RequestAuthenticator(md5, m, Patched(s.body, s.off, Zeros(16)), secret)
  }

  function Signed(md5: Hash, hmac: Mac, m: Message, s: Section, secret: bytes): bytes
    requires RoomAt(s)
  {
    Frame(m.code, m.id, 20 + |s.body|, SentAuthenticator(md5, hmac, m, s, secret), SignedBody(md5, hmac, m, s, secret))
  }

  function Marshaled(md5: Hash, hmac: Mac, m: Message, secret: bytes): Result<bytes> {
    if secret == [] then Err(SecretEmpty)
    else if !IsValidCode(m.code) then Err(InvalidCode)
    else
      var s :- SerializeAttributes(md5, m.code, m.auth, secret, m.attrs);
      if 20 + |s.body| > MaxLengthForCode(m.code) then Err(InvalidLength)
      else if s.off.Some? && s.off.value + 18 > |s.body| then Err(RuntimePanic)
      else Ok(Signed(md5, hmac, m, s, secret))
  }

  // ----- Unmarshal -----

  // Header and attribute section, before any digest is checked.
  function Structure(data: bytes): Result<Message> {
    if |data| < PACKET_MIN_LENGTH then Err(ShortBuffer)
    else if !IsValidCode(data[0]) then Err(InvalidCode)
    else
      var length := Uint16(data[2..4]);
      if length < PACKET_MIN_LENGTH || length > MaxLengthForCode(data[0]) then Err(InvalidLength)
      else if |data| < length then Err(ShortBuffer)
      else
        var attrs :- DecodeAll(data[20..length]);
        Ok(Message(data[0], data[1], data[4..20], attrs))
  }

  // The authenticator Unmarshal expects in a self-signed request.
  function ExpectedAuthenticator(md5: Hash, data: bytes, secret: bytes): Block
    requires Structure(data).Ok?
  {
    var length := Uint16(data[2..4]);
    AccountingRequestAuthenticator(md5, data[0], data[1], length, ZeroMA(data[20..length]), secret)
  }

  function Unmarshaled(md5: Hash, data: bytes, secret: bytes): Result<Message> {
    var m :- Structure(data);
    if IsSelfSigned(m.code) && ExpectedAuthenticator(md5, data, secret) != m.auth then Err(AuthenticatorMismatch)
    else Ok(m)
  }

  // ----- the two checks of a reply -----

  function VerifyResponseAuthenticator(md5: Hash, raw: bytes, requestAuth: Block, secret: bytes): Result<()> {
    if |raw| < PACKET_MIN_LENGTH then Err(ShortBuffer)
    else if !IsResponseCode(raw[0]) then Err(InvalidCode)
    else
      var length := Uint16(raw[2..4]);
      if length > |raw| then Err(ShortBuffer)
      else if length < 20 then Err(RuntimePanic)
      else if ResponseAuthenticator(md5, raw[0], raw[1], length, requestAuth, raw[20..length], secret) != raw[4..20]
      then Err(AuthenticatorMismatch)
      else Ok(())
  }

  // The HMAC input: the value zeroed at `offset`, and the Request Authenticator
  // put back in a packet that does not carry it.
  function MACInput(raw: bytes, offset: nat, requestAuth: Block): bytes
    requires 20 <= offset && offset + 18 <= |raw|
  {
    var cleared := Overwrite(raw, offset + 2, Zeros(16));
    if IsRequestCode(raw[0]) then cleared else Overwrite(cleared, 4, requestAuth)
  }

  function VerifyMessageAuthenticator(hmac: Mac, raw: bytes, requestAuth: Block, secret: bytes): Result<()> {
    if |raw| < PACKET_MIN_LENGTH then Err(ShortBuffer)
    else
      var length := Uint16(raw[2..4]);
      if length > |raw| then Err(ShortBuffer)
      else if length < 20 then Err(RuntimePanic)
      else
        var found :- FindMA(raw[20..length]);
        if found.None? then Err(MessageAuthenticatorMissing)
        else
          var offset := 20 + found.value;
          if |raw| - offset < 18 then Err(InvalidAttribute)
          else if hmac(secret, MACInput(raw, offset, requestAuth)) != raw[offset + 2..offset + 18]
          then Err(MessageAuthenticatorMismatch)
          else Ok(())
  }

  // protocol/verify.go
  function VerifyResponse(md5: Hash, hmac: Mac, raw: bytes, expectedId: byte, requestAuth: Block, secret: bytes): Result<Message> {
    var m :- Unmarshaled(md5, raw, secret);
    if m.id != expectedId then Err(IdentifierMismatch)
    else
      var _ :- VerifyResponseAuthenticator(md5, raw, requestAuth, secret);
      if HasMA(m.attrs) then
        var _ :- VerifyMessageAuthenticator(hmac, raw, requestAuth, secret);
        Ok(m)
      else Ok(m)
  }
}
