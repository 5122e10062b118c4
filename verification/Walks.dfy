// The three walks over an attribute section that look for the
// Message-Authenticator (packet/packet.go): the offset recorded while
// serializing, the search of VerifyMessageAuthenticator and the in-place
// zeroing used to recheck a self-signed request.
module Walks {
  import opened Bytes
  import opened Attributes

  predicate IsMA(a: Attribute) {
    a.typ == MESSAGE_AUTHENTICATOR
  }

  predicate NoMA(attrs: seq<Attribute>) {
    forall i :: 0 <= i < |attrs| ==> !IsMA(attrs[i])
  }

  predicate HasMA(attrs: seq<Attribute>) {
    !NoMA(attrs)
  }

  ghost predicate AtMostOneMA(attrs: seq<Attribute>) {
    forall i, j :: 0 <= i < j < |attrs| ==> !(IsMA(attrs[i]) && IsMA(attrs[j]))
  }

  // Every Message-Authenticator has room for the 16-octet signature.
  ghost predicate RoomForMA(attrs: seq<Attribute>) {
    forall i :: 0 <= i < |attrs| && IsMA(attrs[i]) ==> |attrs[i].value| >= 16
  }

  // Every Message-Authenticator has the 16-octet value of section 5.14 of RFC 2869.
  ghost predicate StandardMA(attrs: seq<Attribute>) {
    forall i :: 0 <= i < |attrs| && IsMA(attrs[i]) ==> |attrs[i].value| == 16
  }

  // Index of the first Message-Authenticator, or |attrs|.
  function FirstMA(attrs: seq<Attribute>): (k: nat)
    ensures k <= |attrs|
    ensures forall i :: 0 <= i < k ==> !IsMA(attrs[i])
    ensures k < |attrs| ==> IsMA(attrs[k])
  {
    if attrs == [] || IsMA(attrs[0]) then 0 else 1 + FirstMA(attrs[1..])
  }

  // Where the first Message-Authenticator starts inside Encode(attrs).
  function MAOffset(attrs: seq<Attribute>): Option<nat> {
    var k := FirstMA(attrs);
    if k == |attrs| then None else Some(|Encode(attrs[..k])|)
  }

  // The attributes with `v` over the first 16 octets of the first Message-Authenticator.
  function SetMA(attrs: seq<Attribute>, v: Block): seq<Attribute>
    requires RoomForMA(attrs)
  {
    var k := FirstMA(attrs);
    if k == |attrs| then attrs
    else attrs[k := Attribute(attrs[k].typ, v + attrs[k].value[16..])]
  }

  // `body` with `v` over the 16 octets behind the recorded offset.
  function Patched(body: bytes, off: Option<nat>, v: Block): (r: bytes)
    requires off.Some? ==> off.value + 18 <= |body|
    ensures |r| == |body|
  {
    match off
    case None => body
    case Some(o) => Overwrite(body, o + 2, v)
  }

  // A position found in the rest of a section, counted from `n` octets earlier.
  function Shifted(found: Result<Option<nat>>, n: nat): Result<Option<nat>> {
    match found
    case Err(e) => Err(e)
    case Ok(None) => Ok(None)
    case Ok(Some(k)) => Ok(Some(n + k))
  }

  // The search of VerifyMessageAuthenticator: it stops at the first hit.
  function FindMA(body: bytes): Result<Option<nat>>
    decreases |body|
  {
    if body == [] then Ok(None)
    else if UnmarshalAttribute(body).Err? then Err(UnmarshalAttribute(body).error)
    else if body[0] == MESSAGE_AUTHENTICATOR then Ok(Some(0))
    else Shifted(FindMA(body[body[1]..]), body[1] as int)
  }

  // The effect of zeroMessageAuthenticatorValueInPlace from index `i` on: only an
  // attribute of Length 18 is zeroed, and a malformed length stops the walk.
  function ZeroFrom(s: bytes, i: nat): (z: bytes)
    requires i <= |s|
    ensures |z| == |s|
    decreases |s| - i
  {
    if i + 2 > |s| || s[i + 1] < 2 || s[i + 1] as int > |s| - i then s
    else if s[i] == MESSAGE_AUTHENTICATOR && s[i + 1] == 18 then Overwrite(s, i + 2, Zeros(16))
    else ZeroFrom(s, i + s[i + 1] as int)
  }

  function ZeroMA(body: bytes): (z: bytes)
    ensures |z| == |body|
  {
    ZeroFrom(body, 0)
  }

  method ZeroMAInPlace(attrs: array<byte>)
    modifies attrs
    ensures attrs[..] == ZeroMA(old(attrs[..]))
  {
    ghost var was := attrs[..];
    var i := 0;
    while i + 2 <= attrs.Length
      invariant 0 <= i <= attrs.Length
      invariant attrs[..] == was
      invariant ZeroFrom(was, i) == ZeroMA(was)
      decreases attrs.Length - i
    {
      var attrType, attrLen := attrs[i], attrs[i + 1];
      if attrLen < 2 || attrLen as int > attrs.Length - i {
        return;
      }
      if attrType == MESSAGE_AUTHENTICATOR && attrLen == 18 {
        ZeroBlock(attrs, i + 2);
        return;
      }
      i := i + attrLen as int;
    }
  }

  method FindMALoop(body: bytes) returns (r: Result<Option<nat>>)
    ensures r == FindMA(body)
  {
    var rest := body;
    while |rest| > 0
      invariant |rest| <= |body|
      invariant FindMA(body) == Shifted(FindMA(rest), |body| - |rest|)
      decreases |rest|
    {
      var startOff := |body| - |rest|;
      var u := UnmarshalAttribute(rest);
      if u.Err? {
        return Err(u.error);
      }
      if IsMA(u.value.0) {
        return Ok(Some(startOff));
      }
      rest := u.value.1;
    }
    return Ok(None);
  }

  // ----- the walks agree -----

  // Encode(attrs), cut around attribute k.
  lemma EncodeAround(attrs: seq<Attribute>, k: nat)
    requires k < |attrs|
    ensures Encode(attrs) == Encode(attrs[..k]) + (Tlv(attrs[k]) + Encode(attrs[k + 1..]))
  {
    EncodeAppend(attrs[..k], attrs[k..]);
    assert attrs == attrs[..k] + attrs[k..];
    assert attrs[k..][1..] == attrs[k + 1..];
  }

  // Both walks step over attributes they are not looking for.
  lemma FindSkipsOne(a: Attribute, rest: bytes)
    requires Fits(a) && !IsMA(a)
    ensures FindMA(Tlv(a) + rest) == Shifted(FindMA(rest), |Tlv(a)|)
  {
    UnmarshalTlv(a, rest);
  }

  lemma ShiftedTwice(r: Result<Option<nat>>, m: nat, n: nat)
    ensures Shifted(Shifted(r, m), n) == Shifted(r, n + m)
  {
  }

  lemma {:induction false} FindSkips(xs: seq<Attribute>, rest: bytes)
    requires AllFit(xs) && NoMA(xs)
    ensures FindMA(Encode(xs) + rest) == Shifted(FindMA(rest), |Encode(xs)|)
  {
    if xs == [] {
      assert Encode(xs) + rest == rest;
    } else {
      var head, tail := Tlv(xs[0]), Encode(xs[1..]);
      calc {
        FindMA(Encode(xs) + rest);
        { Assoc(head, tail, rest); }
        FindMA(head + (tail + rest));
        { FindSkipsOne(xs[0], tail + rest); }
        Shifted(FindMA(tail + rest), |head|);
        { FindSkips(xs[1..], rest); }
        Shifted(Shifted(FindMA(rest), |tail|), |head|);
        { ShiftedTwice(FindMA(rest), |tail|, |head|); }
        Shifted(FindMA(rest), |Encode(xs)|);
      }
    }
  }

  // No attribute the zeroing walk would stop at.
  predicate NothingToZero(xs: seq<Attribute>) {
    forall i :: 0 <= i < |xs| ==> !(IsMA(xs[i]) && |xs[i].value| == 16)
  }

  lemma PrefixSplit(a: bytes, b: bytes, s: bytes, i: nat)
    requires i <= |s| && a + b <= s[i..]
    ensures i + |a| <= |s| && a <= s[i..] && b <= s[i + |a|..]
  {
    assert s[i..][|a|..] == s[i + |a|..];
    assert (a + b)[|a|..] == b;
  }

  lemma ZeroSkipsOne(a: Attribute, s: bytes, i: nat)
    requires Fits(a) && !(IsMA(a) && |a.value| == 16)
    requires i <= |s| && Tlv(a) <= s[i..]
    ensures ZeroFrom(s, i) == ZeroFrom(s, i + |Tlv(a)|)
  {
    assert s[i..][0] == a.typ && s[i..][1] as int == |Tlv(a)|;
  }

  lemma ZeroSkipsHead(a: Attribute, more: bytes, s: bytes, i: nat, n: nat)
    requires Fits(a) && !(IsMA(a) && |a.value| == 16)
    requires i <= |s| && Tlv(a) + more <= s[i..] && n == i + |Tlv(a)|
    ensures n <= |s| && more <= s[n..] && ZeroFrom(s, i) == ZeroFrom(s, n)
  {
    PrefixSplit(Tlv(a), more, s, i);
    ZeroSkipsOne(a, s, i);
  }

  lemma {:induction false} ZeroSkips(xs: seq<Attribute>, s: bytes, i: nat)
    requires AllFit(xs) && NothingToZero(xs)
    requires i <= |s| && Encode(xs) <= s[i..]
    ensures ZeroFrom(s, i) == ZeroFrom(s, i + |Encode(xs)|)
    decreases |xs|
  {
    if xs != [] {
      var n := i + |Tlv(xs[0])|;
      ZeroSkipsHead(xs[0], Encode(xs[1..]), s, i, n);
      ZeroSkips(xs[1..], s, n);
    }
  }

  lemma FindHead(a: Attribute, rest: bytes)
    requires Fits(a) && IsMA(a)
    ensures FindMA(Tlv(a) + rest) == Ok(Some(0))
  {
    UnmarshalTlv(a, rest);
  }

  lemma FindEncode(attrs: seq<Attribute>)
    requires AllFit(attrs)
    ensures FindMA(Encode(attrs)) == Ok(MAOffset(attrs))
    ensures MAOffset(attrs).Some? <==> HasMA(attrs)
  {
    var k := FirstMA(attrs);
    if k == |attrs| {
      FindSkips(attrs, []);
      assert Encode(attrs) + [] == Encode(attrs);
    } else {
      var rest := Tlv(attrs[k]) + Encode(attrs[k + 1..]);
      calc {
        FindMA(Encode(attrs));
        { EncodeAround(attrs, k); }
        FindMA(Encode(attrs[..k]) + rest);
        { FindSkips(attrs[..k], rest); }
        Shifted(FindMA(rest), |Encode(attrs[..k])|);
        { FindHead(attrs[k], Encode(attrs[k + 1..])); }
        Ok(Some(|Encode(attrs[..k])|));
      }
    }
  }

  lemma OverwriteMiddle(head: bytes, a: Attribute, tail: bytes, v: Block)
    requires |a.value| >= 16
    ensures Overwrite(head + (Tlv(a) + tail), |head| + 2, v)
         == head + (Tlv(Attribute(a.typ, v + a.value[16..])) + tail)
  {
    assert Overwrite(Tlv(a) + tail, 2, v) == Tlv(Attribute(a.typ, v + a.value[16..])) + tail;
    OverwriteBehind(head, Tlv(a) + tail, 2, v);
  }

  lemma SetMAFits(attrs: seq<Attribute>, v: Block)
    requires RoomForMA(attrs)
    ensures AllFit(attrs) ==> AllFit(SetMA(attrs, v))
    ensures RoomForMA(SetMA(attrs, v))
    ensures FirstMA(SetMA(attrs, v)) == FirstMA(attrs)
    ensures forall w: Block :: SetMA(SetMA(attrs, v), w) == SetMA(attrs, w)
  {
    var k := FirstMA(attrs);
    if k < |attrs| {
      assert AllFit(attrs) ==> Fits(attrs[k]);
      var out := SetMA(attrs, v);
      assert IsMA(out[k]);
      assert forall i :: 0 <= i < k ==> out[i] == attrs[i];
      assert FirstMA(out) == k;
    }
  }

  // Overwriting 16 octets behind the recorded offset changes the first
  // Message-Authenticator's value and nothing else.
  lemma OverwriteIsSetMA(attrs: seq<Attribute>, v: Block)
    requires RoomForMA(attrs) && HasMA(attrs)
    ensures MAOffset(attrs).Some? && MAOffset(attrs).value + 18 <= |Encode(attrs)|
    ensures Overwrite(Encode(attrs), MAOffset(attrs).value + 2, v) == Encode(SetMA(attrs, v))
    ensures MAOffset(SetMA(attrs, v)) == MAOffset(attrs)
  {
    var k := FirstMA(attrs);
    var out := SetMA(attrs, v);
    SetMAFits(attrs, v);
    EncodeAround(attrs, k);
    EncodeAround(out, k);
    assert out[..k] == attrs[..k] && out[k + 1..] == attrs[k + 1..];
    OverwriteMiddle(Encode(attrs[..k]), attrs[k], Encode(attrs[k + 1..]), v);
  }

  lemma ZeroHead(a: Attribute, s: bytes, i: nat)
    requires IsMA(a) && |a.value| == 16
    requires i <= |s| && Tlv(a) <= s[i..]
    ensures ZeroFrom(s, i) == Overwrite(s, i + 2, Zeros(16))
  {
    assert s[i..][0] == a.typ && s[i..][1] == 18;
  }

  lemma PartsInside(attrs: seq<Attribute>, k: nat)
    requires k < |attrs|
    ensures |Encode(attrs[..k])| + |Tlv(attrs[k])| <= |Encode(attrs)|
    ensures Encode(attrs[..k]) <= Encode(attrs)[0..] && Tlv(attrs[k]) <= Encode(attrs)[|Encode(attrs[..k])|..]
  {
    var head, rest := Encode(attrs[..k]), Encode(attrs[k + 1..]);
    EncodeAround(attrs, k);
    PrefixSplit(head, Tlv(attrs[k]) + rest, Encode(attrs), 0);
    PrefixSplit(Tlv(attrs[k]), rest, Encode(attrs), |head|);
  }

  lemma NothingInFront(attrs: seq<Attribute>)
    requires AllFit(attrs)
    ensures AllFit(attrs[..FirstMA(attrs)]) && NothingToZero(attrs[..FirstMA(attrs)])
  {
  }

  lemma ZeroEncode(attrs: seq<Attribute>, k: nat)
    requires AllFit(attrs) && k == FirstMA(attrs) < |attrs| && |attrs[k].value| == 16
    ensures |Encode(attrs[..k])| + 18 <= |Encode(attrs)|
    ensures ZeroMA(Encode(attrs)) == Overwrite(Encode(attrs), |Encode(attrs[..k])| + 2, Zeros(16))
  {
    PartsInside(attrs, k);
    NothingInFront(attrs);
    ZeroSkips(attrs[..k], Encode(attrs), 0);
    ZeroHead(attrs[k], Encode(attrs), |Encode(attrs[..k])|);
  }

  lemma ZeroNothing(attrs: seq<Attribute>)
    requires AllFit(attrs) && NothingToZero(attrs)
    ensures ZeroMA(Encode(attrs)) == Encode(attrs)
  {
    assert Encode(attrs)[0..] == Encode(attrs);
    ZeroSkips(attrs, Encode(attrs), 0);
  }

  // On any octets, whatever follows: the walk zeroes the 16 octets of the first attribute
  // of Type 80 and Length 18 in front of which everything decodes.
  lemma ZeroedInFront(xs: seq<Attribute>, v: Block, rest: bytes)
    requires AllFit(xs) && NothingToZero(xs)
    ensures ZeroMA(Encode(xs) + ([80, 18] + v + rest)) == Encode(xs) + ([80, 18] + Zeros(16) + rest)
  {
    var head, tail := Encode(xs), [80, 18] + v + rest;
    assert (head + tail)[0..] == head + tail;
    ZeroSkips(xs, head + tail, 0);
    assert (head + tail)[|head|] == 80 && (head + tail)[|head| + 1] == 18;
    assert Overwrite(tail, 2, Zeros(16)) == [80, 18] + Zeros(16) + rest;
    OverwriteBehind(head, tail, 2, Zeros(16));
  }

  // A walk that meets octets that do not decode first leaves everything alone.
  lemma ZeroStops(xs: seq<Attribute>, rest: bytes)
    requires AllFit(xs) && NothingToZero(xs) && UnmarshalAttribute(rest).Err?
    ensures ZeroMA(Encode(xs) + rest) == Encode(xs) + rest
  {
    var s := Encode(xs) + rest;
    assert s[0..] == s && s[|Encode(xs)|..] == rest;
    ZeroSkips(xs, s, 0);
    assert |rest| >= 2 ==> s[|Encode(xs)| + 1] == rest[1];
  }

  lemma PatchedTwice(body: bytes, off: Option<nat>, v: Block, w: Block)
    requires off.Some? ==> off.value + 18 <= |body|
    ensures Patched(Patched(body, off, v), off, w) == Patched(body, off, w)
  {
    if off.Some? {
      OverwriteTwice(body, off.value + 2, v, w);
    }
  }

  lemma ZeroAgrees(attrs: seq<Attribute>)
    requires AllFit(attrs) && StandardMA(attrs) && HasMA(attrs)
    ensures MAOffset(attrs).Some? && MAOffset(attrs).value + 18 <= |Encode(attrs)|
    ensures ZeroMA(Encode(attrs)) == Overwrite(Encode(attrs), MAOffset(attrs).value + 2, Zeros(16))
  {
    StandardFirst(attrs);
    ZeroEncode(attrs, FirstMA(attrs));
  }

  // The offset found on the wire is the recorded one, and with 16-octet values
  // it is also where the zeroing happens.
  lemma WalksAgree(attrs: seq<Attribute>)
    requires AllFit(attrs) && StandardMA(attrs)
    ensures FindMA(Encode(attrs)) == Ok(MAOffset(attrs))
    ensures MAOffset(attrs).Some? <==> HasMA(attrs)
    ensures MAOffset(attrs).Some? ==> MAOffset(attrs).value + 18 <= |Encode(attrs)|
    ensures ZeroMA(Encode(attrs)) == Patched(Encode(attrs), MAOffset(attrs), Zeros(16))
  {
    FindEncode(attrs);
    if HasMA(attrs) {
      ZeroAgrees(attrs);
    } else {
      ZeroNothing(attrs);
    }
  }

  lemma StandardFirst(attrs: seq<Attribute>)
    requires StandardMA(attrs) && HasMA(attrs)
    ensures FirstMA(attrs) < |attrs| && |attrs[FirstMA(attrs)].value| == 16
  {
  }
}
