// The fixed RADIUS header and what each pass over the packet buffer does to it.
module Wire {
  import opened Bytes

  const PACKET_MIN_LENGTH := 20
  const PACKET_MAX_LENGTH_RFC2865 := 4096
  const PACKET_MAX_LENGTH_RFC2866 := 4095

  const ACCESS_REQUEST: byte := 1
  const ACCESS_ACCEPT: byte := 2
  const ACCESS_REJECT: byte := 3
  const ACCOUNTING_REQUEST: byte := 4
  const ACCOUNTING_RESPONSE: byte := 5
  const ACCESS_CHALLENGE: byte := 11
  const DISCONNECT_REQUEST: byte := 40
  const DISCONNECT_ACK: byte := 41
  const DISCONNECT_NAK: byte := 42
  const COA_REQUEST: byte := 43
  const COA_ACK: byte := 44
  const COA_NAK: byte := 45

  predicate IsAccounting(code: byte) {
    code == ACCOUNTING_REQUEST || code == ACCOUNTING_RESPONSE
  }

  // How Marshal and Unmarshal treat a code.
  datatype Family =
    | AccessReq    // carries a caller-chosen authenticator
    | SelfSigned   // a request whose authenticator is a digest of the packet itself
    | Reply        // a response, signed over its request's authenticator
    | Unsupported

  function FamilyOf(code: byte): Family {
    if code == ACCESS_REQUEST then AccessReq
    else if code == ACCOUNTING_REQUEST || code == COA_REQUEST || code == DISCONNECT_REQUEST then SelfSigned
    else if || code == ACCESS_ACCEPT || code == ACCESS_REJECT || code == ACCESS_CHALLENGE
            || code == ACCOUNTING_RESPONSE || code == COA_ACK || code == COA_NAK
            || code == DISCONNECT_ACK || code == DISCONNECT_NAK then Reply
    else Unsupported
  }

  predicate IsSelfSigned(code: byte) {
    FamilyOf(code).SelfSigned?
  }

  predicate IsRequestCode(code: byte) {
    FamilyOf(code).AccessReq? || FamilyOf(code).SelfSigned?
  }

  predicate IsResponseCode(code: byte) {
    FamilyOf(code).Reply?
  }

  predicate IsValidCode(code: byte) {
    !FamilyOf(code).Unsupported?
  }

  function MaxLengthForCode(code: byte): nat {
    if IsAccounting(code) then PACKET_MAX_LENGTH_RFC2866 else PACKET_MAX_LENGTH_RFC2865
  }

  // The codes by their numbers: sections 4 of RFC 2865 and of RFC 2866, section 2 of RFC
  // 5176, and how long their packets may be.
  lemma CodesByNumber(code: byte)
    ensures FamilyOf(code).AccessReq? <==> code == 1
    ensures IsSelfSigned(code) <==> code in {4, 40, 43}
    ensures IsResponseCode(code) <==> code in {2, 3, 5, 11, 41, 42, 44, 45}
    ensures IsRequestCode(code) <==> code in {1, 4, 40, 43}
    ensures MaxLengthForCode(code) == if code in {4, 5} then 4095 else 4096
  {
  }

  // Code, Identifier, Length, Authenticator, attributes.
  function Frame(code: byte, id: byte, length: nat, auth: Block, body: bytes): (raw: bytes)
    requires length < 0x1_0000
    ensures |raw| == 20 + |body|
  {
    [code, id] + PutUint16(length) + auth + body
  }

  lemma FrameParts(code: byte, id: byte, length: nat, auth: Block, body: bytes)
    requires length < 0x1_0000
    ensures (var raw := Frame(code, id, length, auth, body);
             raw[0] == code && raw[1] == id && Uint16(raw[2..4]) == length
             && raw[4..20] == auth && raw[20..] == body)
  {
    assert Frame(code, id, length, auth, body)[2..4] == PutUint16(length);
  }

  // Conversely, every buffer of 20 octets or more is a frame.
  lemma FrameOf(raw: bytes)
    requires |raw| >= 20
    ensures raw == Frame(raw[0], raw[1], Uint16(raw[2..4]), raw[4..20], raw[20..])
    ensures Uint16(raw[2..4]) < 0x1_0000
  {
    assert PutUint16(Uint16(raw[2..4])) == raw[2..4];
    assert raw == [raw[0], raw[1]] + raw[2..4] + raw[4..20] + raw[20..];
  }

  lemma WriteAuthenticator(code: byte, id: byte, length: nat, auth: Block, body: bytes, next: Block)
    requires length < 0x1_0000
    ensures Overwrite(Frame(code, id, length, auth, body), 4, next) == Frame(code, id, length, next, body)
  {
  }

  lemma WriteBody(code: byte, id: byte, length: nat, auth: Block, body: bytes, at: nat, src: bytes)
    requires length < 0x1_0000 && at + |src| <= |body|
    ensures Overwrite(Frame(code, id, length, auth, body), 20 + at, src)
         == Frame(code, id, length, auth, Overwrite(body, at, src))
  {
    OverwriteBehind([code, id] + PutUint16(length) + auth, body, at, src);
  }
}
