// packet/attribute.go: one Type-Length-Value attribute, and lists of them.
module Attributes {
  import opened Bytes

  const ATTR_VALUE_MAX_LENGTH := 253
  const USER_PASSWORD: byte := 2
  const VENDOR_SPECIFIC: byte := 26
  const MESSAGE_AUTHENTICATOR: byte := 80

  datatype Attribute = Attribute(typ: byte, value: bytes)

  // ----- one attribute -----

  predicate Fits(a: Attribute) {
    |a.value| <= ATTR_VALUE_MAX_LENGTH
  }

  // Type, Length, Value; byte(2 + len) keeps the low eight bits.
  function Tlv(a: Attribute): (t: bytes)
    ensures |t| == 2 + |a.value|
  {
    [a.typ, ((2 + |a.value|) % 256) as byte] + a.value
  }

  function MarshalBinary(a: Attribute): Result<bytes> {
    if |a.value| > ATTR_VALUE_MAX_LENGTH then Err(AttributeTooLong) else Ok(Tlv(a))
  }

  function UnmarshalAttribute(data: bytes): Result<(Attribute, bytes)> {
    if |data| < 2 then Err(ShortBuffer)
    else
      var attrLen := data[1] as int;
      if attrLen < 2 then Err(InvalidAttribute)
      else if attrLen > |data| then Err(InvalidLength)
      else Ok((Attribute(data[0], data[2..attrLen]), data[attrLen..]))
  }

  lemma UnmarshalTlv(a: Attribute, rest: bytes)
    requires Fits(a)
    ensures UnmarshalAttribute(Tlv(a) + rest) == Ok((a, rest))
  {
    var data := Tlv(a) + rest;
    assert data[2..2 + |a.value|] == a.value;
    assert data[2 + |a.value|..] == rest;
  }

  lemma UnmarshalShape(data: bytes)
    requires UnmarshalAttribute(data).Ok?
    ensures (var (a, rest) := UnmarshalAttribute(data).value;
             Fits(a) && data == Tlv(a) + rest && |rest| < |data|)
  {
  }

  // ----- lists of attributes -----

  predicate AllFit(attrs: seq<Attribute>) {
    forall i :: 0 <= i < |attrs| ==> Fits(attrs[i])
  }

  function Encode(attrs: seq<Attribute>): bytes {
    if attrs == [] then [] else Tlv(attrs[0]) + Encode(attrs[1..])
  }

  // The attribute loop of Packet.Unmarshal.
  function DecodeAll(data: bytes): Result<seq<Attribute>>
    decreases |data|
  {
    if data == [] then Ok([])
    else
      var (a, rest) :- UnmarshalAttribute(data);
      var more :- DecodeAll(rest);
      Ok([a] + more)
  }

  lemma {:induction false} EncodeAppend(xs: seq<Attribute>, ys: seq<Attribute>)
    ensures Encode(xs + ys) == Encode(xs) + Encode(ys)
  {
    if xs == [] {
      assert xs + ys == ys;
    } else {
      assert (xs + ys)[0] == xs[0] && (xs + ys)[1..] == xs[1..] + ys;
      EncodeAppend(xs[1..], ys);
      Assoc(Tlv(xs[0]), Encode(xs[1..]), Encode(ys));
    }
  }

  lemma {:induction false} DecodeEncode(attrs: seq<Attribute>)
    requires AllFit(attrs)
    ensures DecodeAll(Encode(attrs)) == Ok(attrs)
  {
    if attrs != [] {
      UnmarshalTlv(attrs[0], Encode(attrs[1..]));
      DecodeEncode(attrs[1..]);
      assert [attrs[0]] + attrs[1..] == attrs;
    }
  }

  lemma {:induction false} EncodeDecode(data: bytes)
    requires DecodeAll(data).Ok?
    ensures AllFit(DecodeAll(data).value) && Encode(DecodeAll(data).value) == data
    decreases |data|
  {
    if data != [] {
      UnmarshalShape(data);
      var (a, rest) := UnmarshalAttribute(data).value;
      EncodeDecode(rest);
      assert DecodeAll(data).value[1..] == DecodeAll(rest).value;
    }
  }

  // The loop accepts exactly the encodings, and each octet string has one reading.
  lemma DecodeAcceptsEncodings(data: bytes, attrs: seq<Attribute>)
    ensures DecodeAll(data) == Ok(attrs) <==> AllFit(attrs) && Encode(attrs) == data
  {
    if DecodeAll(data) == Ok(attrs) {
      EncodeDecode(data);
    }
    if AllFit(attrs) && Encode(attrs) == data {
      DecodeEncode(attrs);
    }
  }

  // One turn of the loop, seen from the attributes read so far.
  lemma {:induction false} DecodePrefix(xs: seq<Attribute>, rest: bytes)
    requires AllFit(xs)
    ensures DecodeAll(Encode(xs) + rest)
         == match DecodeAll(rest) { case Ok(more) => Ok(xs + more) case Err(e) => Err(e) }
  {
    if xs == [] {
      assert Encode(xs) + rest == rest;
      assert DecodeAll(rest).Ok? ==> xs + DecodeAll(rest).value == DecodeAll(rest).value;
    } else {
      Assoc(Tlv(xs[0]), Encode(xs[1..]), rest);
      UnmarshalTlv(xs[0], Encode(xs[1..]) + rest);
      DecodePrefix(xs[1..], rest);
      if DecodeAll(rest).Ok? {
        Assoc([xs[0]], xs[1..], DecodeAll(rest).value);
        assert [xs[0]] + xs[1..] == xs;
      }
    }
  }
}
