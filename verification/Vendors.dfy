// vendors/vendors.go and vendors/microsoft/microsoft.go: Vendor-Specific attributes
// (section 5.26 of RFC 2865) and the MPPE keys they carry.
module Vendors {
  import opened Bytes
  import opened Attributes
  import opened Tunnel

  const VSA_VALUE_MAX_LENGTH := 253
  const MICROSOFT: nat := 311
  const MPPE_SEND_KEY: byte := 16
  const MPPE_RECV_KEY: byte := 17

  datatype Vsa = Vsa(vendor: nat, typ: byte, value: bytes)

  // ----- packet/attribute.go -----

  function NewVendorSpecific(vendor: nat, data: bytes): Attribute
    requires vendor < 0x1_0000_0000
  {
    Attribute(VENDOR_SPECIFIC, PutUint32(vendor) + data)
  }

  function VendorSpecific(a: Attribute): Result<(nat, bytes)> {
    if |a.value| < 5 then Err(InvalidAttribute) else Ok((Uint32(a.value[..4]), a.value[4..]))
  }

  // ----- vendors/vendors.go -----

  function Cut(value: bytes): bytes {
    if |value| > VSA_VALUE_MAX_LENGTH then value[..VSA_VALUE_MAX_LENGTH] else value
  }

  function Payload(typ: byte, value: bytes): bytes {
    [typ, ((2 + |value|) % 256) as byte] + value
  }

  function NewVSA(vendor: nat, typ: byte, value: bytes): Attribute
    requires vendor < 0x1_0000_0000
  {
    NewVendorSpecific(vendor, Payload(typ, Cut(value)))
  }

  function DecodeVSA(a: Attribute): Result<Vsa> {
    var (vendor, payload) :- VendorSpecific(a);
    if |payload| < 2 then Err(InvalidAttribute)
    else
      var declared := payload[1] as int;
      if declared < 2 then Err(InvalidAttribute)
      else if |payload| - 2 < declared - 2 then Err(InvalidAttribute)
      else Ok(Vsa(vendor, payload[0], payload[2..declared]))
  }

  function MatchVSA(a: Attribute, vendor: nat): Option<(byte, bytes)> {
    var r := DecodeVSA(a);
    if r.Err? || r.value.vendor != vendor then None else Some((r.value.typ, r.value.value))
  }

  lemma NewVSAParts(vendor: nat, typ: byte, value: bytes)
    requires vendor < 0x1_0000_0000
    ensures (var v := NewVSA(vendor, typ, value).value;
             |v| == 6 + |Cut(value)| && v[..4] == PutUint32(vendor) && v[4..] == Payload(typ, Cut(value)))
  {
  }

  // The value of an attribute of Type 26 is a four-octet vendor, most significant octet
  // first, and at least one octet of data.
  lemma VendorSpecificIff(a: Attribute, vendor: nat, data: bytes)
    requires vendor < 0x1_0000_0000
    ensures VendorSpecific(a) == Ok((vendor, data)) <==> data != [] && a.value == NewVendorSpecific(vendor, data).value
    ensures NewVendorSpecific(vendor, data).typ == 26
    ensures (var v := NewVendorSpecific(vendor, data).value;
             v[4..] == data && vendor == ((v[0] as int * 256 + v[1] as int) * 256 + v[2] as int) * 256 + v[3] as int)
  {
    Uint32RoundTrip(vendor);
    assert NewVendorSpecific(vendor, data).value[..4] == PutUint32(vendor);
    assert NewVendorSpecific(vendor, data).value[4..] == data;
    if |a.value| >= 5 {
      Uint32Surjective(a.value[..4]);
      assert a.value == a.value[..4] + a.value[4..];
    }
  }

  // What DecodeVSA reads from an attribute made by NewVSA: the value, cut at 253.
  lemma DecodeNewVSA(vendor: nat, typ: byte, value: bytes)
    requires vendor < 0x1_0000_0000
    ensures NewVSA(vendor, typ, value).typ == 26
    ensures Cut(value) == if |value| > 253 then value[..253] else value
    ensures DecodeVSA(NewVSA(vendor, typ, value)) == Ok(Vsa(vendor, typ, Cut(value)))
  {
    NewVSAParts(vendor, typ, value);
    Uint32RoundTrip(vendor);
    var p := Payload(typ, Cut(value));
    assert p[2..2 + |Cut(value)|] == Cut(value);
  }

  lemma MatchNewVSA(vendor: nat, typ: byte, value: bytes, want: nat)
    requires vendor < 0x1_0000_0000
    ensures MatchVSA(NewVSA(vendor, typ, value), want)
         == if want == vendor then Some((typ, Cut(value))) else None
  {
    DecodeNewVSA(vendor, typ, value);
  }

  // What an attribute says after one trip over the wire.
  function OverTheWire(a: Attribute, rest: bytes): Result<(Attribute, bytes)> {
    var wire :- MarshalBinary(a);
    UnmarshalAttribute(wire + rest)
  }

  // A vendor value crosses the wire whole exactly up to 247 octets. From 248 to 253
  // NewVSA still builds the attribute, but MarshalBinary refuses it.
  lemma VSAOverTheWireIff(vendor: nat, typ: byte, value: bytes, rest: bytes)
    requires vendor < 0x1_0000_0000
    ensures (var r := OverTheWire(NewVSA(vendor, typ, value), rest);
             (r.Ok? && DecodeVSA(r.value.0) == Ok(Vsa(vendor, typ, value)) && r.value.1 == rest)
             <==> |value| <= 247)
  {
    NewVSAParts(vendor, typ, value);
    if |value| <= 247 {
      UnmarshalTlv(NewVSA(vendor, typ, value), rest);
      DecodeNewVSA(vendor, typ, value);
    }
  }

  lemma PayloadShape(p: bytes, declared: nat)
    requires |p| >= 2 && p[1] as int == declared && 2 <= declared <= |p|
    ensures p == Payload(p[0], p[2..declared]) + p[declared..]
  {
  }

  // DecodeVSA accepts exactly the values made of a Vendor-Id, one vendor attribute
  // of at most 253 octets, and anything after it.
  lemma DecodeVSAIff(a: Attribute, v: Vsa)
    ensures DecodeVSA(a) == Ok(v)
       <==> (v.vendor < 0x1_0000_0000 && |v.value| <= 253
             && exists trailer: bytes :: a.value == PutUint32(v.vendor) + Payload(v.typ, v.value) + trailer)
  {
    if DecodeVSA(a) == Ok(v) {
      var payload := a.value[4..];
      var declared := payload[1] as int;
      PayloadShape(payload, declared);
      Uint32Surjective(a.value[..4]);
      assert a.value == a.value[..4] + payload;
      Assoc(a.value[..4], Payload(v.typ, v.value), payload[declared..]);
      assert a.value == PutUint32(v.vendor) + Payload(v.typ, v.value) + payload[declared..];
    }
    if v.vendor < 0x1_0000_0000 && |v.value| <= VSA_VALUE_MAX_LENGTH {
      forall trailer: bytes | a.value == PutUint32(v.vendor) + Payload(v.typ, v.value) + trailer
        ensures DecodeVSA(a) == Ok(v)
      {
        DecodeTrailer(a, v, trailer);
      }
    }
  }

  lemma DecodeTrailer(a: Attribute, v: Vsa, trailer: bytes)
    requires v.vendor < 0x1_0000_0000 && |v.value| <= VSA_VALUE_MAX_LENGTH
    requires a.value == PutUint32(v.vendor) + Payload(v.typ, v.value) + trailer
    ensures DecodeVSA(a) == Ok(v)
  {
    Uint32RoundTrip(v.vendor);
    Assoc(PutUint32(v.vendor), Payload(v.typ, v.value), trailer);
    var p := Payload(v.typ, v.value) + trailer;
    assert a.value[..4] == PutUint32(v.vendor) && a.value[4..] == p;
    assert p[2..2 + |v.value|] == v.value;
  }

  lemma Uint32Surjective(b: bytes)
    requires |b| == 4
    ensures Uint32(b) < 0x1_0000_0000 && PutUint32(Uint32(b)) == b
  {
    var hi, lo := b[..2], b[2..];
    assert Uint16(hi) < 0x1_0000 && Uint16(lo) < 0x1_0000;
    assert PutUint16(Uint16(hi)) == hi && PutUint16(Uint16(lo)) == lo;
    assert Uint32(b) / 0x1_0000 == Uint16(hi) && Uint32(b) % 0x1_0000 == Uint16(lo);
    assert b == hi + lo;
  }

  // The comment on DecodeVSA promises an error for attributes that are not Type 26.
  // The code looks at the value only, so for every type, 26 or not, the error comes
  // exactly when the value has no room for a vendor header or for the length in it. A
  // User-Password attribute holding a well-formed vendor value is accepted.
  lemma DecodeVSAErrsIff(a: Attribute, vendor: nat, typ: byte, value: bytes)
    requires vendor < 0x1_0000_0000
    ensures DecodeVSA(a).Err? <==> |a.value| < 6 || a.value[5] < 2 || a.value[5] as int > |a.value| - 4
    ensures DecodeVSA(Attribute(USER_PASSWORD, NewVSA(vendor, typ, value).value)) == Ok(Vsa(vendor, typ, Cut(value)))
  {
    DecodeNewVSA(vendor, typ, value);
  }

  // ----- vendors/microsoft/microsoft.go -----

  function NewMPPEKeyAttribute(md5: Hash, typ: byte, key: bytes, requestAuth: Block, secret: bytes,
                               r0: byte, r1: byte, padding: bytes): Result<Attribute>
    requires |padding| == SaltedPaddingLength(|key|)
  {
    var enc :- EncryptMPPEKey(md5, key, requestAuth, secret, r0, r1, padding);
    Ok(NewVSA(MICROSOFT, typ, enc))
  }

  function NewMPPESendKey(md5: Hash, key: bytes, requestAuth: Block, secret: bytes,
                          r0: byte, r1: byte, padding: bytes): Result<Attribute>
    requires |padding| == SaltedPaddingLength(|key|)
  {
    NewMPPEKeyAttribute(md5, MPPE_SEND_KEY, key, requestAuth, secret, r0, r1, padding)
  }

  function NewMPPERecvKey(md5: Hash, key: bytes, requestAuth: Block, secret: bytes,
                          r0: byte, r1: byte, padding: bytes): Result<Attribute>
    requires |padding| == SaltedPaddingLength(|key|)
  {
    NewMPPEKeyAttribute(md5, MPPE_RECV_KEY, key, requestAuth, secret, r0, r1, padding)
  }

  function DecryptMPPEKeyAttribute(md5: Hash, a: Attribute, requestAuth: Block, secret: bytes): Result<bytes> {
    var m := MatchVSA(a, MICROSOFT);
    if m.None? || (m.value.0 != MPPE_SEND_KEY && m.value.0 != MPPE_RECV_KEY) then Err(InvalidAttribute)
    else DecryptSalted(md5, m.value.1, requestAuth, secret)
  }

  // A wrapped key of any allowed length fits an attribute of vendor 311, under type 16 for
  // the send key and 17 for the receive key (section 2.4 of RFC 2548), and is read from the
  // wire as it was written.
  lemma MPPEKeySurvivesWire(md5: Hash, send: bool, key: bytes, requestAuth: Block, secret: bytes,
                            r0: byte, r1: byte, padding: bytes, rest: bytes)
    requires |padding| == SaltedPaddingLength(|key|)
    requires secret != [] && |key| <= 239
    ensures (var a := if send then NewMPPESendKey(md5, key, requestAuth, secret, r0, r1, padding)
                      else NewMPPERecvKey(md5, key, requestAuth, secret, r0, r1, padding);
             a.Ok? && Fits(a.value)
             && (var r := OverTheWire(a.value, rest);
                 r.Ok? && r.value.1 == rest && DecodeVSA(r.value.0).Ok?
                 && DecodeVSA(r.value.0).value.vendor == 311
                 && DecodeVSA(r.value.0).value.typ == (if send then 16 else 17)
                 && DecryptMPPEKeyAttribute(md5, r.value.0, requestAuth, secret) == Ok(key)))
  {
    TunnelPasswordRoundTrip(md5, key, requestAuth, secret, r0, r1, padding);
    var enc := EncryptMPPEKey(md5, key, requestAuth, secret, r0, r1, padding).value;
    VSAOverTheWireIff(MICROSOFT, if send then MPPE_SEND_KEY else MPPE_RECV_KEY, enc, rest);
    NewVSAParts(MICROSOFT, if send then MPPE_SEND_KEY else MPPE_RECV_KEY, enc);
  }

  // An MPPE attribute decrypts to a key exactly when the salted payload inside does;
  // attributes of other vendors or other Microsoft types are refused.
  lemma DecryptMPPEKeyIff(md5: Hash, vendor: nat, typ: byte, value: bytes, requestAuth: Block, secret: bytes, key: bytes)
    requires vendor < 0x1_0000_0000 && |value| <= VSA_VALUE_MAX_LENGTH
    ensures DecryptMPPEKeyAttribute(md5, NewVSA(vendor, typ, value), requestAuth, secret) == Ok(key)
       <==> (vendor == 311 && (typ == 16 || typ == 17)
             && DecryptSalted(md5, value, requestAuth, secret) == Ok(key))
  {
    MatchNewVSA(vendor, typ, value, MICROSOFT);
  }
}
