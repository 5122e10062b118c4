// packet/packet.go, serializeAttributes: the attribute section of a packet
// about to be sent, and the offset of its Message-Authenticator.
module Serialize {
  import opened Bytes
  import opened Crypto
  import opened Attributes
  import opened Wire
  import opened Walks

  datatype Section = Section(body: bytes, off: Option<nat>)

  predicate Hidden(code: byte, a: Attribute) {
    a.typ == USER_PASSWORD && code == ACCESS_REQUEST
  }

  // One turn of the loop: encrypt, encode, note the offset, append.
  function AppendAttribute(md5: Hash, code: byte, auth: Block, secret: bytes, s: Section, a: Attribute): Result<Section> {
    var value :- if Hidden(code, a) then EncryptUserPassword(md5, a.value, auth, secret) else Ok(a.value);
    var ab :- MarshalBinary(Attribute(a.typ, value));
    if IsMA(a) then
      if s.off.Some? then Err(InvalidAttribute) else Ok(Section(s.body + ab, Some(|s.body|)))
    else Ok(Section(s.body + ab, s.off))
  }

  function SerializeAttributes(md5: Hash, code: byte, auth: Block, secret: bytes, attrs: seq<Attribute>): Result<Section> {
    if attrs == [] then Ok(Section([], None))
    else
      var s :- SerializeAttributes(md5, code, auth, secret, attrs[..|attrs| - 1]);
      AppendAttribute(md5, code, auth, secret, s, attrs[|attrs| - 1])
  }

  method SerializeLoop(md5: Hash, code: byte, auth: Block, secret: bytes, attrs: seq<Attribute>)
    returns (r: Result<Section>)
    ensures r == SerializeAttributes(md5, code, auth, secret, attrs)
  {
    var attrBytes: bytes, msgAuthOffset: Option<nat> := [], None;
    for i := 0 to |attrs|
      invariant SerializeAttributes(md5, code, auth, secret, attrs[..i]) == Ok(Section(attrBytes, msgAuthOffset))
    {
      var a := attrs[i];
      FirstFailure(md5, code, auth, secret, attrs, i);
      var value := a.value;
      if a.typ == USER_PASSWORD && code == ACCESS_REQUEST {
        var encrypted := EncryptPassword(md5, a.value, auth, secret);
        if encrypted.Err? {
          return Err(encrypted.error);
        }
        value := encrypted.value;
      }
      var ab := MarshalBinary(Attribute(a.typ, value));
      if ab.Err? {
        return Err(ab.error);
      }
      if a.typ == MESSAGE_AUTHENTICATOR {
        if msgAuthOffset.Some? {
          return Err(InvalidAttribute);
        }
        msgAuthOffset := Some(|attrBytes|);
      }
      attrBytes := attrBytes + ab.value;
    }
    assert attrs[..|attrs|] == attrs;
    return Ok(Section(attrBytes, msgAuthOffset));
  }

  // The loop at attribute i: a failure there is the result for the whole list.
  lemma FirstFailure(md5: Hash, code: byte, auth: Block, secret: bytes, attrs: seq<Attribute>, i: nat)
    requires i < |attrs|
    requires SerializeAttributes(md5, code, auth, secret, attrs[..i]).Ok?
    ensures (var s := SerializeAttributes(md5, code, auth, secret, attrs[..i]).value;
             var step := AppendAttribute(md5, code, auth, secret, s, attrs[i]);
             SerializeAttributes(md5, code, auth, secret, attrs[..i + 1]) == step
             && (step.Err? ==> SerializeAttributes(md5, code, auth, secret, attrs) == Err(step.error)))
  {
    assert attrs[..i + 1][..i] == attrs[..i];
    FailureStays(md5, code, auth, secret, attrs, i + 1);
  }

  lemma {:induction false} FailureStays(md5: Hash, code: byte, auth: Block, secret: bytes, attrs: seq<Attribute>, i: nat)
    requires i <= |attrs|
    ensures (var r := SerializeAttributes(md5, code, auth, secret, attrs[..i]);
             r.Err? ==> SerializeAttributes(md5, code, auth, secret, attrs) == Err(r.error))
  {
    if i == |attrs| {
      assert attrs[..i] == attrs;
    } else {
      assert attrs[..|attrs| - 1][..i] == attrs[..i];
      FailureStays(md5, code, auth, secret, attrs[..|attrs| - 1], i);
    }
  }

  // ----- what is serialized, attribute by attribute -----

  // The attribute as it stands on the wire before signing.
  function OnWire(md5: Hash, code: byte, auth: Block, secret: bytes, a: Attribute): Attribute {
    if Hidden(code, a) then Attribute(a.typ, EncryptedPassword(md5, a.value, auth, secret)) else a
  }

  function WireList(md5: Hash, code: byte, auth: Block, secret: bytes, attrs: seq<Attribute>): (ws: seq<Attribute>)
    ensures |ws| == |attrs|
  {
    seq(|attrs|, i requires 0 <= i < |attrs| => OnWire(md5, code, auth, secret, attrs[i]))
  }

  // What a caller can check: value lengths, and at most one Message-Authenticator.
  ghost predicate Marshalable(code: byte, attrs: seq<Attribute>) {
    && AtMostOneMA(attrs)
    && forall i :: 0 <= i < |attrs| ==> ValueFits(code, attrs[i])
  }

  predicate ValueFits(code: byte, a: Attribute) {
    |a.value| <= if Hidden(code, a) then USER_PASSWORD_MAX_LENGTH else ATTR_VALUE_MAX_LENGTH
  }

  lemma OffsetSnoc(xs: seq<Attribute>, a: Attribute)
    ensures MAOffset(xs + [a])
         == if MAOffset(xs).Some? then MAOffset(xs) else if IsMA(a) then Some(|Encode(xs)|) else None
    ensures Encode(xs + [a]) == Encode(xs) + Tlv(a)
  {
    var ys := xs + [a];
    EncodeAppend(xs, [a]);
    assert forall i :: 0 <= i < |xs| ==> ys[i] == xs[i];
    assert ys[|xs|] == a;
    var j := FirstMA(xs);
    assert ys[..j] == xs[..j];
    assert FirstMA(ys) == if j < |xs| || IsMA(a) then j else |ys|;
  }

  lemma AppendExactly(md5: Hash, code: byte, auth: Block, secret: bytes, s: Section, a: Attribute)
    requires secret != []
    ensures (var w := OnWire(md5, code, auth, secret, a);
             var r := AppendAttribute(md5, code, auth, secret, s, a);
             (r.Ok? <==> ValueFits(code, a) && (IsMA(a) ==> s.off.None?))
             && (r.Ok? ==> r.value == Section(s.body + Tlv(w), if IsMA(a) then Some(|s.body|) else s.off) && Fits(w)))
  {
  }

  lemma MarshalableSnoc(code: byte, init: seq<Attribute>, a: Attribute)
    ensures Marshalable(code, init + [a])
       <==> Marshalable(code, init) && ValueFits(code, a) && (IsMA(a) ==> NoMA(init))
  {
    var attrs := init + [a];
    assert forall i :: 0 <= i < |init| ==> init[i] == attrs[i];
    assert attrs[|init|] == a;
  }

  lemma SameMAs(md5: Hash, code: byte, auth: Block, secret: bytes, attrs: seq<Attribute>)
    ensures (var ws := WireList(md5, code, auth, secret, attrs);
             (MAOffset(ws).Some? <==> HasMA(attrs))
             && FirstMA(ws) == FirstMA(attrs)
             && (RoomForMA(attrs) ==> RoomForMA(ws)) && (StandardMA(attrs) ==> StandardMA(ws)))
  {
    var ws := WireList(md5, code, auth, secret, attrs);
    assert forall i :: 0 <= i < |attrs| ==> (IsMA(ws[i]) <==> IsMA(attrs[i])) && (IsMA(attrs[i]) ==> ws[i] == attrs[i]);
  }

  // One more attribute behind a marshalable list.
  lemma AppendedExactly(md5: Hash, code: byte, auth: Block, secret: bytes, init: seq<Attribute>, ws: seq<Attribute>, a: Attribute)
    requires secret != [] && ws == WireList(md5, code, auth, secret, init) && Marshalable(code, init) && AllFit(ws)
    ensures (var r := AppendAttribute(md5, code, auth, secret, Section(Encode(ws), MAOffset(ws)), a);
             var w := OnWire(md5, code, auth, secret, a);
             (r.Ok? <==> Marshalable(code, init + [a]))
             && (r.Ok? ==> r.value == Section(Encode(ws + [w]), MAOffset(ws + [w])) && AllFit(ws + [w])))
  {
    OffsetSnoc(ws, OnWire(md5, code, auth, secret, a));
    MarshalableSnoc(code, init, a);
    SameMAs(md5, code, auth, secret, init);
    AppendExactly(md5, code, auth, secret, Section(Encode(ws), MAOffset(ws)), a);
  }

  lemma WireSnoc(md5: Hash, code: byte, auth: Block, secret: bytes, init: seq<Attribute>, a: Attribute)
    ensures WireList(md5, code, auth, secret, init + [a])
         == WireList(md5, code, auth, secret, init) + [OnWire(md5, code, auth, secret, a)]
  {
  }

  // Serialization succeeds exactly on marshalable lists; it then yields the
  // encoding of the wire attributes and the offset of the Message-Authenticator.
  lemma {:induction false} SerializeExactly(md5: Hash, code: byte, auth: Block, secret: bytes, attrs: seq<Attribute>)
    requires secret != []
    ensures (var ws := WireList(md5, code, auth, secret, attrs);
             var r := SerializeAttributes(md5, code, auth, secret, attrs);
             (r.Ok? <==> Marshalable(code, attrs))
             && (r.Ok? ==> r.value == Section(Encode(ws), MAOffset(ws)) && AllFit(ws)))
  {
    if attrs != [] {
      var init, a := attrs[..|attrs| - 1], attrs[|attrs| - 1];
      assert attrs == init + [a];
      SerializeExactly(md5, code, auth, secret, init);
      WireSnoc(md5, code, auth, secret, init, a);
      if Marshalable(code, init) {
        AppendedExactly(md5, code, auth, secret, init, WireList(md5, code, auth, secret, init), a);
      } else {
        MarshalableSnoc(code, init, a);
      }
    }
  }

  // ----- how long the section becomes -----

  function WireValueLength(code: byte, a: Attribute): nat {
    if Hidden(code, a) then PaddedLength(|a.value|) else |a.value|
  }

  function WireLength(code: byte, attrs: seq<Attribute>): nat {
    if attrs == [] then 0 else 2 + WireValueLength(code, attrs[0]) + WireLength(code, attrs[1..])
  }

  lemma WireTail(md5: Hash, code: byte, auth: Block, secret: bytes, attrs: seq<Attribute>, k: nat)
    requires k <= |attrs|
    ensures WireList(md5, code, auth, secret, attrs)[k..] == WireList(md5, code, auth, secret, attrs[k..])
  {
  }

  // The digest decides the octets of the section, never their number.
  lemma {:induction false} WireLengthIs(md5: Hash, code: byte, auth: Block, secret: bytes, attrs: seq<Attribute>)
    ensures |Encode(WireList(md5, code, auth, secret, attrs))| == WireLength(code, attrs)
    decreases |attrs|
  {
    if attrs != [] {
      WireTail(md5, code, auth, secret, attrs, 1);
      WireLengthIs(md5, code, auth, secret, attrs[1..]);
    }
  }
}
