// packet/packet.go and protocol/verify.go as the code runs them: passes over one
// output buffer, a shrinking input slice, and in-place zeroing of copies.
module PacketCodec {
  import opened Bytes
  import opened Wire
  import opened Crypto
  import opened Attributes
  import opened Walks
  import opened Serialize
  import opened Packet

  class PacketBuffer {
    var code: byte
    var id: byte
    var auth: Block
    var attrs: seq<Attribute>

    constructor ()
      ensures attrs == []
    {
      code, id, auth, attrs := 0, 0, Zeros(16), [];
    }

    function View(): Message
      reads this
    {
      Message(code, id, auth, attrs)
    }

    method Marshal(md5: Hash, hmac: Mac, secret: bytes) returns (r: Result<bytes>)
      ensures r == Marshaled(md5, hmac, View(), secret)
    {
      if |secret| == 0 {
        return Err(SecretEmpty);
      }
      if !IsValidCode(code) {
        return Err(InvalidCode);
      }
      var serialized := SerializeLoop(md5, code, auth, secret, attrs);
      if serialized.Err? {
        return Err(serialized.error);
      }
      var Section(body, off) := serialized.value;
      var length := PACKET_MIN_LENGTH + |body|;
      if length > MaxLengthForCode(code) {
        return Err(InvalidLength);
      }
      if off.Some? && 20 + off.value + 2 + 16 > length {
        return Err(RuntimePanic);
      }

      var out := SignInPlace(md5, hmac, View(), serialized.value, secret);
      return Ok(out[..]);
    }

    // The fields are assigned before the digest of a self-signed request is
    // checked, so a mismatch leaves them changed.
    method Unmarshal(md5: Hash, data: bytes, secret: bytes) returns (r: Result<()>)
      modifies this
      ensures r == (match Unmarshaled(md5, data, secret) case Ok(_) => Ok(()) case Err(e) => Err(e))
      ensures View() == if Structure(data).Ok? then Structure(data).value else old(View())
    {
      if |data| < PACKET_MIN_LENGTH {
        return Err(ShortBuffer);
      }
      if !IsValidCode(data[0]) {
        return Err(InvalidCode);
      }
      var length := Uint16(data[2..4]);
      if length < PACKET_MIN_LENGTH {
        return Err(InvalidLength);
      }
      if length > MaxLengthForCode(data[0]) {
        return Err(InvalidLength);
      }
      if |data| < length {
        return Err(ShortBuffer);
      }
      var decoded := DecodeLoop(data[20..length]);
      if decoded.Err? {
        return Err(decoded.error);
      }
      code, id, auth, attrs := data[0], data[1], data[4..20], decoded.value;
      if IsSelfSigned(code) {
        var attrCopy := new byte[length - 20](i requires 0 <= i < length - 20 => data[20 + i]);
        assert attrCopy[..] == data[20..length];
        ZeroMAInPlace(attrCopy);
        if AccountingRequestAuthenticator(md5, code, id, length, attrCopy[..], secret) != auth {
          return Err(AuthenticatorMismatch);
        }
      }
      return Ok(());
    }
  }

  // ----- the passes over the output buffer -----

  method NewFrame(code: byte, id: byte, body: bytes) returns (out: array<byte>)
    requires 20 + |body| < 0x1_0000
    ensures fresh(out) && out[..] == Frame(code, id, 20 + |body|, Zeros(16), body)
  {
    var length := 20 + |body|;
    out := new byte[length](_ => 0);
    out[0] := code;
    out[1] := id;
    CopyInto(out, 2, PutUint16(length));
    CopyInto(out, 20, body);
  }

  method ClearValue(out: array<byte>, off: Option<nat>, ghost code: byte, ghost id: byte, ghost auth: Block, ghost body: bytes)
    requires 20 + |body| < 0x1_0000 && (off.Some? ==> off.value + 18 <= |body|)
    requires out[..] == Frame(code, id, 20 + |body|, auth, body)
    modifies out
    ensures out[..] == Frame(code, id, 20 + |body|, auth, Patched(body, off, Zeros(16)))
  {
    if off.Some? {
      WriteBody(code, id, 20 + |body|, auth, body, off.value + 2, Zeros(16));
      ZeroBlock(out, 20 + (off.value + 2));
    }
  }

  method WriteValue(out: array<byte>, off: Option<nat>, v: Block, ghost code: byte, ghost id: byte, ghost auth: Block, ghost body: bytes)
    requires 20 + |body| < 0x1_0000 && off.Some? && off.value + 18 <= |body|
    requires out[..] == Frame(code, id, 20 + |body|, auth, body)
    modifies out
    ensures out[..] == Frame(code, id, 20 + |body|, auth, Patched(body, off, v))
  {
    WriteBody(code, id, 20 + |body|, auth, body, off.value + 2, v);
    CopyInto(out, 20 + (off.value + 2), v);
  }

  method WriteAuth(out: array<byte>, next: Block, ghost code: byte, ghost id: byte, ghost auth: Block, ghost body: bytes)
    requires 20 + |body| < 0x1_0000
    requires out[..] == Frame(code, id, 20 + |body|, auth, body)
    modifies out
    ensures out[..] == Frame(code, id, 20 + |body|, next, body)
  {
    WriteAuthenticator(code, id, 20 + |body|, auth, body, next);
    CopyInto(out, 4, next);
  }

  // Marshal from the output buffer on: each pass leaves it a frame whose authenticator or
  // body has changed.
  method SignInPlace(md5: Hash, hmac: Mac, m: Message, s: Section, secret: bytes) returns (out: array<byte>)
    requires RoomAt(s)
    ensures fresh(out) && out[..] == Signed(md5, hmac, m, s, secret)
  {
    var Message(code, id, auth, _) := m;
    var Section(body, off) := s;
    var length := 20 + |body|;
    ghost var cleared := Patched(body, off, Zeros(16));
    ghost var signed := SignedBody(md5, hmac, m, s, secret);

    out := NewFrame(code, id, body);
    ClearValue(out, off, code, id, Zeros(16), body);

    var requestAuth := auth;
    if IsSelfSigned(code) {
      FrameParts(code, id, length, Zeros(16), cleared);
      requestAuth := AccountingRequestAuthenticator(md5, code, id, length, out[20..], secret);
    }
    WriteAuth(out, requestAuth, code, id, Zeros(16), cleared);

    if off.Some? {
      WriteValue(out, off, hmac(secret, out[..]), code, id, requestAuth, cleared);
      PatchedTwice(body, off, Zeros(16), MACOf(md5, hmac, m, s, secret));
    }

    if IsResponseCode(code) {
      FrameParts(code, id, length, requestAuth, signed);
      WriteAuth(out, ResponseAuthenticator(md5, code, id, length, auth, out[20..], secret), code, id, requestAuth, signed);
    }
  }

  // ----- the loops of the receiving side -----

  method DecodeLoop(data: bytes) returns (r: Result<seq<Attribute>>)
    ensures r == DecodeAll(data)
  {
    var attrData := data;
    var attrs: seq<Attribute> := [];
    assert DecodeAll(data).Ok? ==> [] + DecodeAll(data).value == DecodeAll(data).value;
    while |attrData| > 0
      invariant DecodeAll(data)
             == match DecodeAll(attrData) case Ok(more) => Ok(attrs + more) case Err(e) => Err(e)
      decreases |attrData|
    {
      var u := UnmarshalAttribute(attrData);
      if u.Err? {
        return Err(u.error);
      }
      ghost var more := DecodeAll(u.value.1);
      if more.Ok? {
        Assoc(attrs, [u.value.0], more.value);
      }
      attrs := attrs + [u.value.0];
      attrData := u.value.1;
    }
    assert attrs + [] == attrs;
    return Ok(attrs);
  }

  method MACInputCopy(raw: bytes, offset: nat, requestAuth: Block) returns (input: bytes)
    requires 20 <= offset && offset + 18 <= |raw|
    ensures input == MACInput(raw, offset, requestAuth)
  {
    var copyBuf := new byte[|raw|](i requires 0 <= i < |raw| => raw[i]);
    assert copyBuf[..] == raw;
    ZeroBlock(copyBuf, offset + 2);
    if !IsRequestCode(raw[0]) {
      CopyInto(copyBuf, 4, requestAuth);
    }
    return copyBuf[..];
  }

  method VerifyMAC(hmac: Mac, raw: bytes, requestAuth: Block, secret: bytes) returns (r: Result<()>)
    ensures r == VerifyMessageAuthenticator(hmac, raw, requestAuth, secret)
  {
    if |raw| < PACKET_MIN_LENGTH {
      return Err(ShortBuffer);
    }
    var length := Uint16(raw[2..4]);
    if length > |raw| {
      return Err(ShortBuffer);
    }
    if length < 20 {
      return Err(RuntimePanic);
    }
    var found := FindMALoop(raw[20..length]);
    if found.Err? {
      return Err(found.error);
    }
    if found.value.None? {
      return Err(MessageAuthenticatorMissing);
    }
    var offset := 20 + found.value.value;
    if |raw| - offset < 18 {
      return Err(InvalidAttribute);
    }
    var input := MACInputCopy(raw, offset, requestAuth);
    if hmac(secret, input) != raw[offset + 2..offset + 18] {
      return Err(MessageAuthenticatorMismatch);
    }
    return Ok(());
  }

  method HasMALoop(attrs: seq<Attribute>) returns (found: bool)
    ensures found == HasMA(attrs)
  {
    for i := 0 to |attrs|
      invariant NoMA(attrs[..i])
    {
      if attrs[i].typ == MESSAGE_AUTHENTICATOR {
        return true;
      }
    }
    return false;
  }

  method Verify(md5: Hash, hmac: Mac, raw: bytes, expectedId: byte, requestAuth: Block, secret: bytes)
    returns (r: Result<Message>)
    ensures r == VerifyResponse(md5, hmac, raw, expectedId, requestAuth, secret)
  {
    var pkt := new PacketBuffer();
    var u := pkt.Unmarshal(md5, raw, secret);
    if u.Err? {
      return Err(u.error);
    }
    if pkt.id != expectedId {
      return Err(IdentifierMismatch);
    }
    var v := VerifyResponseAuthenticator(md5, raw, requestAuth, secret);
    if v.Err? {
      return Err(v.error);
    }
    var present := HasMALoop(pkt.attrs);
    if present {
      var w := VerifyMAC(hmac, raw, requestAuth, secret);
      if w.Err? {
        return Err(w.error);
      }
    }
    return Ok(pkt.View());
  }
}
