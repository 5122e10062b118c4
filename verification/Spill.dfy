// A Message-Authenticator too short for its signature: what the 16 octets that Marshal
// writes do to the attributes behind it (packet/packet.go).
module Spill {
  import opened Bytes
  import opened Attributes
  import opened Walks
  import opened Panics

  const ONES: Block := seq(16, _ => 1)

  // Does the 16-octet signature leave all lengths of the section intact?
  predicate SignatureFits(attrs: seq<Attribute>) {
    var k := FirstMA(attrs);
    k == |attrs| || |attrs[k].value| >= 16 || (|attrs[k].value| == 15 && k + 1 < |attrs|)
  }

  // The header octets of attribute k inside an encoding.
  lemma HeaderAt(attrs: seq<Attribute>, k: nat)
    requires k < |attrs|
    ensures (var o := |Encode(attrs[..k])|;
             o + 2 <= |Encode(attrs)| && Encode(attrs)[o] == attrs[k].typ
             && Encode(attrs)[o + 1] as int == (2 + |attrs[k].value|) % 256
             && |Encode(attrs[..k + 1])| == o + 2 + |attrs[k].value|
             && |Encode(attrs)| == |Encode(attrs[..k + 1])| + |Encode(attrs[k + 1..])|)
  {
    EncodeAround(attrs, k);
    EncodeAppend(attrs[..k], [attrs[k]]);
    assert attrs[..k + 1] == attrs[..k] + [attrs[k]];
    assert Encode([attrs[k]]) == Tlv(attrs[k]);
  }

  lemma ShortMA(attrs: seq<Attribute>) returns (k: nat)
    requires AtMostOneMA(attrs) && !RoomForMA(attrs)
    ensures k < |attrs| && k == FirstMA(attrs) && |attrs[k].value| < 16
  {
    var i :| 0 <= i < |attrs| && IsMA(attrs[i]) && |attrs[i].value| < 16;
    k := FirstMA(attrs);
    assert k == i;
  }

  // A short one that does not overrun is followed by another attribute; one octet
  // short, that is enough.
  lemma ShortOverrunsIff(attrs: seq<Attribute>, k: nat)
    requires k < |attrs| && k == FirstMA(attrs) && |attrs[k].value| < 16
    ensures MAOffset(attrs) == Some(|Encode(attrs[..k])|)
    ensures !Overruns(attrs) ==> k + 1 < |attrs|
    ensures |attrs[k].value| == 15 && k + 1 < |attrs| ==> !Overruns(attrs)
  {
    HeaderAt(attrs, k);
    if k + 1 == |attrs| {
      assert attrs[k + 1..] == [];
    } else {
      assert |Encode(attrs[k + 1..])| >= 2;
    }
  }

  // The Length octet of attribute k and the Type octet after it.
  lemma NextHeader(attrs: seq<Attribute>, k: nat)
    requires k + 1 < |attrs| && Fits(attrs[k])
    ensures (var o, n := |Encode(attrs[..k])|, |attrs[k].value|;
             o + 2 + n < |Encode(attrs)| && Encode(attrs)[o + 1] as int == 2 + n
             && Encode(attrs)[o + 2 + n] == attrs[k + 1].typ)
  {
    HeaderAt(attrs, k);
    HeaderAt(attrs, k + 1);
  }

  // The section up to the end of a short Message-Authenticator, signed with `v`.
  function SpilledFront(attrs: seq<Attribute>, k: nat, v: Block): seq<Attribute>
    requires k < |attrs| && |attrs[k].value| < 16
  {
    attrs[..k] + [Attribute(attrs[k].typ, v[..|attrs[k].value|])]
  }

  lemma OverValue(head: bytes, a: Attribute, tail: bytes, v: Block)
    requires |a.value| < 16 && |head| + 18 <= |head + (Tlv(a) + tail)|
    ensures (var n := |a.value|;
             var body := Overwrite(head + (Tlv(a) + tail), |head| + 2, v);
             var front := head + Tlv(Attribute(a.typ, v[..n]));
             |front| == |head| + 2 + n && front <= body && body[|front|] == v[n]
             && (n < 15 ==> body[|front| + 1] == v[n + 1]))
  {
  }

  lemma FrontEncodes(attrs: seq<Attribute>, k: nat, v: Block)
    requires AllFit(attrs) && k < |attrs| && |attrs[k].value| < 16
    ensures (var front := SpilledFront(attrs, k, v);
             AllFit(front)
             && Encode(front) == Encode(attrs[..k]) + Tlv(Attribute(attrs[k].typ, v[..|attrs[k].value|])))
  {
    var a := Attribute(attrs[k].typ, v[..|attrs[k].value|]);
    EncodeAppend(attrs[..k], [a]);
    assert Encode([a]) == Tlv(a);
    assert forall i :: 0 <= i < k ==> Fits(attrs[i]);
  }

  // The signature behind a short value: the front is still well formed, and the octets
  // after it are the rest of the signature.
  lemma Spilled(attrs: seq<Attribute>, k: nat, v: Block)
    requires AllFit(attrs) && k == FirstMA(attrs) < |attrs| && |attrs[k].value| < 16 && !Overruns(attrs)
    ensures |Encode(attrs[..k])| + 18 <= |Encode(attrs)|
    ensures (var n := |attrs[k].value|;
             var body := Overwrite(Encode(attrs), |Encode(attrs[..k])| + 2, v);
             var at := |Encode(SpilledFront(attrs, k, v))|;
             AllFit(SpilledFront(attrs, k, v)) && at == |Encode(attrs[..k])| + 2 + n && at < |body|
             && Encode(SpilledFront(attrs, k, v)) <= body && body[at] == v[n]
             && (n < 15 ==> at + 1 < |body| && body[at + 1] == v[n + 1]))
  {
    EncodeAround(attrs, k);
    FrontEncodes(attrs, k, v);
    OverValue(Encode(attrs[..k]), attrs[k], Encode(attrs[k + 1..]), v);
  }

  lemma BadTail(front: seq<Attribute>, body: bytes)
    requires AllFit(front) && Encode(front) <= body
    requires |Encode(front)| + 1 < |body| && body[|Encode(front)| + 1] == 1
    ensures DecodeAll(body).Err?
  {
    var rest := body[|Encode(front)|..];
    assert body == Encode(front) + rest && rest[1] == 1;
    DecodePrefix(front, rest);
    assert UnmarshalAttribute(rest).Err?;
  }

  // Two octets short or more, the length octet after it is overwritten as well.
  lemma BrokenLength(attrs: seq<Attribute>, k: nat)
    requires AllFit(attrs) && k == FirstMA(attrs) < |attrs| && |attrs[k].value| < 15 && !Overruns(attrs)
    ensures DecodeAll(Patched(Encode(attrs), MAOffset(attrs), ONES)).Err?
  {
    Spilled(attrs, k, ONES);
    BadTail(SpilledFront(attrs, k, ONES), Patched(Encode(attrs), MAOffset(attrs), ONES));
  }

  // One octet short, only the type of the next attribute is overwritten.
  function Retyped(attrs: seq<Attribute>, k: nat, v: Block): seq<Attribute>
    requires k + 1 < |attrs|
  {
    attrs[k := Attribute(attrs[k].typ, v[..15])][k + 1 := Attribute(v[15], attrs[k + 1].value)]
  }

  lemma OverType(head: bytes, a: Attribute, b: Attribute, tail: bytes, v: Block)
    requires |a.value| == 15
    ensures |head| + 18 <= |head + (Tlv(a) + (Tlv(b) + tail))|
    ensures Overwrite(head + (Tlv(a) + (Tlv(b) + tail)), |head| + 2, v)
         == head + (Tlv(Attribute(a.typ, v[..15])) + (Tlv(Attribute(v[15], b.value)) + tail))
  {
    assert Overwrite(Tlv(a) + (Tlv(b) + tail), 2, v) == Tlv(Attribute(a.typ, v[..15])) + (Tlv(Attribute(v[15], b.value)) + tail);
    OverwriteBehind(head, Tlv(a) + (Tlv(b) + tail), 2, v);
  }

  lemma EncodeFrom(attrs: seq<Attribute>, k: nat)
    requires k + 1 < |attrs|
    ensures Encode(attrs) == Encode(attrs[..k]) + (Tlv(attrs[k]) + (Tlv(attrs[k + 1]) + Encode(attrs[k + 2..])))
  {
    EncodeAround(attrs, k);
    assert attrs[k + 1..][1..] == attrs[k + 2..];
  }

  lemma RetypedFits(attrs: seq<Attribute>, k: nat, v: Block)
    requires AllFit(attrs) && k == FirstMA(attrs) && k + 1 < |attrs|
    ensures AllFit(Retyped(attrs, k, v)) && FirstMA(Retyped(attrs, k, v)) == k
  {
    var ys := Retyped(attrs, k, v);
    forall i | 0 <= i < |ys|
      ensures Fits(ys[i]) && (i < k ==> !IsMA(ys[i]))
    {
      assert Fits(attrs[i]);
    }
    assert IsMA(ys[k]);
    FirstIs(ys, k);
  }

  lemma FirstIs(attrs: seq<Attribute>, k: nat)
    requires k < |attrs| && IsMA(attrs[k]) && forall i :: 0 <= i < k ==> !IsMA(attrs[i])
    ensures FirstMA(attrs) == k
  {
    assert !(FirstMA(attrs) > k);
  }

  lemma RetypedParts(attrs: seq<Attribute>, k: nat, v: Block)
    requires k + 1 < |attrs|
    ensures (var ys := Retyped(attrs, k, v);
             ys[..k] == attrs[..k] && ys[k] == Attribute(attrs[k].typ, v[..15])
             && ys[k + 1] == Attribute(v[15], attrs[k + 1].value) && ys[k + 2..] == attrs[k + 2..])
  {
  }

  lemma RetypedEncode(attrs: seq<Attribute>, k: nat, v: Block, ys: seq<Attribute>)
    requires k + 1 < |attrs| && ys == Retyped(attrs, k, v)
    ensures Encode(ys) == Encode(attrs[..k]) + (Tlv(Attribute(attrs[k].typ, v[..15]))
                          + (Tlv(Attribute(v[15], attrs[k + 1].value)) + Encode(attrs[k + 2..])))
  {
    RetypedParts(attrs, k, v);
    EncodeFrom(ys, k);
  }

  lemma RetypedBody(attrs: seq<Attribute>, k: nat, v: Block)
    requires k == FirstMA(attrs) && k + 1 < |attrs| && |attrs[k].value| == 15
    ensures |Encode(attrs[..k])| + 18 <= |Encode(attrs)|
    ensures Overwrite(Encode(attrs), |Encode(attrs[..k])| + 2, v) == Encode(Retyped(attrs, k, v))
  {
    EncodeFrom(attrs, k);
    RetypedEncode(attrs, k, v, Retyped(attrs, k, v));
    OverType(Encode(attrs[..k]), attrs[k], attrs[k + 1], Encode(attrs[k + 2..]), v);
  }

  lemma RetypedOffset(attrs: seq<Attribute>, k: nat, v: Block)
    requires AllFit(attrs) && k == FirstMA(attrs) && k + 1 < |attrs|
    ensures AllFit(Retyped(attrs, k, v)) && HasMA(Retyped(attrs, k, v))
    ensures MAOffset(Retyped(attrs, k, v)) == MAOffset(attrs) == Some(|Encode(attrs[..k])|)
  {
    RetypedFits(attrs, k, v);
    assert Retyped(attrs, k, v)[..k] == attrs[..k];
    assert IsMA(Retyped(attrs, k, v)[k]);
  }

  lemma RetypedPatched(attrs: seq<Attribute>, k: nat, v: Block)
    requires k == FirstMA(attrs) && k + 1 < |attrs| && |attrs[k].value| == 15 && !Overruns(attrs)
    ensures Patched(Encode(attrs), MAOffset(attrs), v) == Encode(Retyped(attrs, k, v))
  {
    RetypedBody(attrs, k, v);
  }

  // What both walks read in an encoding.
  lemma ReadsBack(ys: seq<Attribute>, body: bytes)
    requires AllFit(ys) && body == Encode(ys)
    ensures DecodeAll(body) == Ok(ys) && FindMA(body) == Ok(MAOffset(ys))
  {
    DecodeEncode(ys);
    FindEncode(ys);
  }

  lemma RetypedDecodes(attrs: seq<Attribute>, k: nat, v: Block)
    requires AllFit(attrs) && k == FirstMA(attrs) && k + 1 < |attrs| && |attrs[k].value| == 15 && !Overruns(attrs)
    ensures HasMA(Retyped(attrs, k, v))
    ensures (var body := Patched(Encode(attrs), MAOffset(attrs), v);
             DecodeAll(body) == Ok(Retyped(attrs, k, v)) && FindMA(body) == Ok(MAOffset(attrs)))
  {
    RetypedPatched(attrs, k, v);
    RetypedOffset(attrs, k, v);
    ReadsBack(Retyped(attrs, k, v), Patched(Encode(attrs), MAOffset(attrs), v));
  }

  // The zeroing walk changes nothing in front of the first value it may zero.
  lemma {:induction false} ZeroKeeps(s: bytes, i: nat, j: nat)
    requires i <= |s| && j < |s| && j < i + 2
    ensures ZeroFrom(s, i)[j] == s[j]
    decreases |s| - i
  {
    if !(i + 2 > |s| || s[i + 1] < 2 || s[i + 1] as int > |s| - i)
       && !(s[i] == MESSAGE_AUTHENTICATOR && s[i + 1] == 18) {
      ZeroKeeps(s, i + s[i + 1] as int, j);
    }
  }

  lemma KeptBehind(front: seq<Attribute>, body: bytes)
    requires AllFit(front) && NothingToZero(front) && Encode(front) <= body && |Encode(front)| < |body|
    ensures ZeroMA(body)[|Encode(front)|] == body[|Encode(front)|]
  {
    assert body[0..] == body;
    ZeroSkips(front, body, 0);
    ZeroKeeps(body, |Encode(front)|, |Encode(front)|);
  }

  lemma FrontHidden(attrs: seq<Attribute>, k: nat, v: Block)
    requires k == FirstMA(attrs) < |attrs| && |attrs[k].value| < 16
    ensures NothingToZero(SpilledFront(attrs, k, v))
  {
  }

  lemma SpilledOctet(attrs: seq<Attribute>, k: nat, v: Block)
    requires AllFit(attrs) && k == FirstMA(attrs) < |attrs| && |attrs[k].value| < 16 && !Overruns(attrs)
    ensures (var at := |Encode(SpilledFront(attrs, k, v))|;
             var body := Patched(Encode(attrs), MAOffset(attrs), v);
             at == |Encode(attrs[..k])| + 2 + |attrs[k].value| && at < |body|
             && body[at] == v[|attrs[k].value|] && ZeroMA(body)[at] == v[|attrs[k].value|])
  {
    Spilled(attrs, k, v);
    FrontHidden(attrs, k, v);
    KeptBehind(SpilledFront(attrs, k, v), Patched(Encode(attrs), MAOffset(attrs), v));
  }

  // The octet behind the short value is part of the signature and is not zeroed.
  lemma SpillNotZeroed(attrs: seq<Attribute>, k: nat)
    requires AllFit(attrs) && k == FirstMA(attrs) < |attrs| && |attrs[k].value| < 16 && !Overruns(attrs)
    ensures ZeroMA(Patched(Encode(attrs), MAOffset(attrs), ONES)) != Patched(Encode(attrs), MAOffset(attrs), Zeros(16))
  {
    SpilledOctet(attrs, k, ONES);
    SpilledOctet(attrs, k, Zeros(16));
  }

  // Nor are the first 16 octets of a value longer than that.
  lemma LongNotZeroed(attrs: seq<Attribute>)
    requires AllFit(attrs) && AtMostOneMA(attrs) && RoomForMA(attrs) && !StandardMA(attrs)
    ensures !Overruns(attrs)
    ensures ZeroMA(Patched(Encode(attrs), MAOffset(attrs), ONES)) != Patched(Encode(attrs), MAOffset(attrs), Zeros(16))
  {
    var i :| 0 <= i < |attrs| && IsMA(attrs[i]) && |attrs[i].value| != 16;
    assert FirstMA(attrs) == i;
    OverwriteIsSetMA(attrs, ONES);
    SetMAFits(attrs, ONES);
    LongHidden(attrs, i);
    ZeroNothing(SetMA(attrs, ONES));
    FirstOctets(Encode(attrs), MAOffset(attrs).value);
  }

  lemma LongHidden(attrs: seq<Attribute>, k: nat)
    requires AtMostOneMA(attrs) && RoomForMA(attrs) && k == FirstMA(attrs) < |attrs| && |attrs[k].value| != 16
    ensures NothingToZero(SetMA(attrs, ONES))
  {
  }

  lemma FirstOctets(body: bytes, off: nat)
    requires off + 18 <= |body|
    ensures Overwrite(body, off + 2, ONES) != Overwrite(body, off + 2, Zeros(16))
  {
    assert Overwrite(body, off + 2, ONES)[off + 2] == 1 && Overwrite(body, off + 2, Zeros(16))[off + 2] == 0;
  }
}
