// packet/extended.go: extended attributes (RFC 6929), their fragmentation and
// reassembly.
module Extended {
  import opened Bytes
  import opened Attributes

  const EXTENDED_TYPE_2: byte := 242
  const FRAGMENT_MAX := 251

  datatype ExtendedAttribute = ExtendedAttribute(typ: byte, extType: byte, value: bytes)

  // ----- one attribute -----

  predicate IsExtendedType(t: byte) {
    241 <= t <= 244
  }

  // The code gives the flags octet to Type 242; section 2.2 of RFC 6929 gives it
  // to Types 245 and 246.
  predicate IsLong(t: byte) {
    t == EXTENDED_TYPE_2
  }

  function HeaderLength(t: byte): nat {
    if IsLong(t) then 4 else 3
  }

  // Length is byte(header + len), the low eight bits.
  function Piece(e: ExtendedAttribute, flags: byte): (p: bytes)
    ensures |p| == HeaderLength(e.typ) + |e.value|
  {
    [e.typ, ((HeaderLength(e.typ) + |e.value|) % 256) as byte, e.extType]
    + (if IsLong(e.typ) then [flags] else []) + e.value
  }

  function MarshalExtended(e: ExtendedAttribute): Result<bytes> {
    if !IsExtendedType(e.typ) then Err(InvalidAttribute)
    else if |e.value| > (if IsLong(e.typ) then FRAGMENT_MAX else ATTR_VALUE_MAX_LENGTH) then Err(AttributeTooLong)
    else Ok(Piece(e, 0))
  }

  function UnmarshalExtended(data: bytes): Result<(ExtendedAttribute, bytes)> {
    if |data| < 2 then Err(ShortBuffer)
    else if !IsExtendedType(data[0]) then Err(InvalidAttribute)
    else
      var length := data[1] as int;
      if length < HeaderLength(data[0]) then Err(InvalidAttribute)
      else if length > |data| then Err(InvalidLength)
      else Ok((ExtendedAttribute(data[0], data[2], data[HeaderLength(data[0])..length]), data[length..]))
  }

  predicate ExtendedMore(raw: bytes) {
    |raw| >= 4 && IsLong(raw[0]) && raw[3] >= 0x80
  }

  lemma UnmarshalPiece(e: ExtendedAttribute, flags: byte, rest: bytes)
    requires IsExtendedType(e.typ) && HeaderLength(e.typ) + |e.value| < 256
    ensures UnmarshalExtended(Piece(e, flags) + rest) == Ok((e, rest))
    ensures ExtendedMore(Piece(e, flags) + rest) <==> IsLong(e.typ) && flags >= 0x80
  {
    var h := HeaderLength(e.typ);
    var data := Piece(e, flags) + rest;
    assert data[h..h + |e.value|] == e.value;
    assert data[h + |e.value|..] == rest;
  }

  lemma UnmarshalLong(data: bytes)
    requires UnmarshalExtended(data).Ok? && IsLong(data[0])
    ensures (var (e, rest) := UnmarshalExtended(data).value;
             |data| >= 4 && e.typ == EXTENDED_TYPE_2 && |e.value| <= FRAGMENT_MAX
             && data == Piece(e, data[3]) + rest && |rest| < |data|)
  {
  }

  // A single attribute survives exactly up to 251 octets (Type 242) or 252 octets
  // (Types 241, 243 and 244). At 253 octets MarshalExtended succeeds, but its Length
  // octet wraps to 0 and the result does not parse.
  lemma ExtendedRoundTripIff(e: ExtendedAttribute, rest: bytes)
    requires IsExtendedType(e.typ)
    ensures (MarshalExtended(e).Ok? && UnmarshalExtended(MarshalExtended(e).value + rest) == Ok((e, rest)))
       <==> |e.value| <= (if IsLong(e.typ) then 251 else 252)
    ensures !IsLong(e.typ) && |e.value| == 253 ==>
              (MarshalExtended(e).Ok? && UnmarshalExtended(MarshalExtended(e).value + rest) == Err(InvalidAttribute))
  {
    if HeaderLength(e.typ) + |e.value| < 256 {
      UnmarshalPiece(e, 0, rest);
    }
  }

  // On the wire it is an attribute whose value starts with the Extended-Type and, for Type
  // 242, a flags octet of zero; Marshal of a list would emit the same octets.
  lemma ExtendedIsAttribute(e: ExtendedAttribute)
    requires e.typ in {241, 242, 243, 244} && |e.value| <= if e.typ == 242 then 251 else 252
    ensures MarshalExtended(e)
         == Ok(Tlv(Attribute(e.typ, if e.typ == 242 then [e.extType, 0] + e.value else [e.extType] + e.value)))
  {
    var inner := if e.typ == 242 then [e.extType, 0] + e.value else [e.extType] + e.value;
    assert Piece(e, 0) == Tlv(Attribute(e.typ, inner));
  }

  // ----- fragments -----

  datatype Fragment = Fragment(flags: byte, chunk: bytes)

  function Long(x: byte, chunk: bytes): ExtendedAttribute {
    ExtendedAttribute(EXTENDED_TYPE_2, x, chunk)
  }

  // The octets of a value cut into fragments: the loop of MarshalExtendedFragments.
  function FragmentBytes(x: byte, value: bytes): bytes
    decreases |value|
  {
    if |value| <= FRAGMENT_MAX then Piece(Long(x, value), 0)
    else Piece(Long(x, value[..FRAGMENT_MAX]), 0x80) + FragmentBytes(x, value[FRAGMENT_MAX..])
  }

  function MarshalFragments(e: ExtendedAttribute): Result<bytes> {
    if IsLong(e.typ) then Ok(FragmentBytes(e.extType, e.value)) else MarshalExtended(e)
  }

  // The reassembly loop, from a fragment of (242, x) on: value and remainder.
  function Continue(x: byte, data: bytes): Result<(bytes, bytes)>
    decreases |data|
  {
    var (f, rest) :- UnmarshalExtended(data);
    if f.typ != EXTENDED_TYPE_2 || f.extType != x then Err(InvalidAttribute)
    else if !ExtendedMore(data) then Ok((f.value, rest))
    else if rest == [] then Err(InvalidAttribute)
    else Prepend(f.value, Continue(x, rest))
  }

  function Prepend(v: bytes, r: Result<(bytes, bytes)>): Result<(bytes, bytes)> {
    match r
    case Ok(p) => Ok((v + p.0, p.1))
    case Err(e) => Err(e)
  }

  function Reassembled(data: bytes): Result<(ExtendedAttribute, bytes)> {
    var (first, remain) :- UnmarshalExtended(data);
    if !IsLong(first.typ) then Ok((first, remain))
    else
      var (value, rest) :- Continue(first.extType, data);
      Ok((Long(first.extType, value), rest))
  }

  // ----- the loops -----

  method MarshalExtendedFragments(e: ExtendedAttribute) returns (r: Result<bytes>)
    ensures r == MarshalFragments(e)
  {
    if !IsExtendedType(e.typ) || !IsLong(e.typ) || |e.value| == 0 {
      return MarshalExtended(e);
    }
    var out: bytes := [];
    var off := 0;
    while off < |e.value|
      invariant off <= |e.value|
      invariant off < |e.value| ==> out + FragmentBytes(e.extType, e.value[off..]) == FragmentBytes(e.extType, e.value)
      invariant off == |e.value| ==> out == FragmentBytes(e.extType, e.value)
    {
      var end := if off + FRAGMENT_MAX < |e.value| then off + FRAGMENT_MAX else |e.value|;
      var chunk := e.value[off..end];
      NextFragment(e.extType, e.value, off, end, out);
      off := end;
      var more: byte := if off < |e.value| then 0x80 else 0;
      out := out + Piece(Long(e.extType, chunk), more);
    }
    return Ok(out);
  }

  lemma NextFragment(x: byte, value: bytes, off: nat, end: nat, out: bytes)
    requires off < end <= |value| && (end == off + FRAGMENT_MAX < |value| || end == |value| <= off + FRAGMENT_MAX)
    ensures (var p := Piece(Long(x, value[off..end]), if end < |value| then 0x80 else 0);
             out + FragmentBytes(x, value[off..])
             == if end < |value| then (out + p) + FragmentBytes(x, value[end..]) else out + p)
  {
    var v := value[off..];
    if end < |value| {
      assert v[..FRAGMENT_MAX] == value[off..end] && v[FRAGMENT_MAX..] == value[end..];
      Assoc(out, Piece(Long(x, value[off..end]), 0x80), FragmentBytes(x, value[end..]));
    } else {
      assert v == value[off..end];
    }
  }

  method UnmarshalExtendedReassembled(data: bytes) returns (r: Result<(ExtendedAttribute, bytes)>)
    ensures r == Reassembled(data)
  {
    var parsed := UnmarshalExtended(data);
    if parsed.Err? {
      return Err(parsed.error);
    }
    var (first, remain) := parsed.value;
    if !IsLong(first.typ) {
      return Ok((first, remain));
    }
    var value, current := first.value, data;
    var x := first.extType;
    while ExtendedMore(current)
      invariant Continue(x, data)
             == if !ExtendedMore(current) then Ok((value, remain))
                else if remain == [] then Err(InvalidAttribute)
                else Prepend(value, Continue(x, remain))
      decreases ExtendedMore(current), |remain|
    {
      current := remain;
      if |current| == 0 {
        return Err(InvalidAttribute);
      }
      var parsedNext := UnmarshalExtended(current);
      if parsedNext.Err? {
        return Err(parsedNext.error);
      }
      var (next, nextRemain) := parsedNext.value;
      if next.typ != first.typ || next.extType != x {
        return Err(InvalidAttribute);
      }
      PrependTwice(value, next.value, nextRemain, Continue(x, nextRemain));
      value := value + next.value;
      remain := nextRemain;
    }
    return Ok((Long(x, value), remain));
  }

  lemma PrependTwice(v: bytes, w: bytes, rest: bytes, r: Result<(bytes, bytes)>)
    ensures Prepend(v, Prepend(w, r)) == Prepend(v + w, r)
    ensures Prepend(v, Ok((w, rest))) == Ok((v + w, rest))
  {
    if r.Ok? {
      Assoc(v, w, r.value.0);
    }
  }

  // ----- runs of fragments: the independent reading -----

  predicate FragmentFits(f: Fragment) {
    |f.chunk| <= FRAGMENT_MAX
  }

  // All but the last fragment carry More; the low seven flag bits are free.
  predicate IsChain(fs: seq<Fragment>) {
    fs != []
    && (forall i :: 0 <= i < |fs| ==> FragmentFits(fs[i]))
    && (forall i :: 0 <= i < |fs| ==> (fs[i].flags >= 0x80 <==> i < |fs| - 1))
  }

  function ChainBytes(x: byte, fs: seq<Fragment>): bytes {
    if fs == [] then [] else Piece(Long(x, fs[0].chunk), fs[0].flags) + ChainBytes(x, fs[1..])
  }

  function Joined(fs: seq<Fragment>): bytes {
    if fs == [] then [] else fs[0].chunk + Joined(fs[1..])
  }

  lemma ChainTail(fs: seq<Fragment>)
    requires IsChain(fs) && |fs| > 1
    ensures IsChain(fs[1..]) && fs[0].flags >= 0x80
  {
    var t := fs[1..];
    forall i | 0 <= i < |t|
      ensures FragmentFits(t[i]) && (t[i].flags >= 0x80 <==> i < |t| - 1)
    {
      assert t[i] == fs[i + 1] && FragmentFits(fs[i + 1]);
    }
    assert fs[0].flags >= 0x80 <==> 0 < |fs| - 1;
  }

  lemma {:induction false} ContinueChain(x: byte, fs: seq<Fragment>, rest: bytes)
    requires IsChain(fs)
    ensures Continue(x, ChainBytes(x, fs) + rest) == Ok((Joined(fs), rest))
    decreases |fs|
  {
    var f := fs[0];
    var tail := ChainBytes(x, fs[1..]);
    assert FragmentFits(f);
    Assoc(Piece(Long(x, f.chunk), f.flags), tail, rest);
    UnmarshalPiece(Long(x, f.chunk), f.flags, tail + rest);
    if |fs| == 1 {
      assert tail + rest == rest && f.chunk + Joined(fs[1..]) == f.chunk;
      assert f.flags >= 0x80 <==> 0 < |fs| - 1;
    } else {
      ChainTail(fs);
      ContinueChain(x, fs[1..], rest);
      assert tail + rest != [];
    }
  }

  // Fragments that all carry More are not enough: what follows decides, and nothing, another
  // attribute or something unreadable is refused.
  lemma {:induction false} ContinueBroken(x: byte, fs: seq<Fragment>, rest: bytes)
    requires fs != [] && forall i :: 0 <= i < |fs| ==> FragmentFits(fs[i]) && fs[i].flags >= 0x80
    ensures Continue(x, ChainBytes(x, fs) + rest)
         == if rest == [] then Err(InvalidAttribute) else Prepend(Joined(fs), Continue(x, rest))
    decreases |fs|
  {
    var f, tail := fs[0], ChainBytes(x, fs[1..]);
    assert FragmentFits(f) && f.flags >= 0x80;
    Assoc(Piece(Long(x, f.chunk), f.flags), tail, rest);
    UnmarshalPiece(Long(x, f.chunk), f.flags, tail + rest);
    if |fs| == 1 {
      assert tail + rest == rest && f.chunk + Joined(fs[1..]) == f.chunk;
    } else {
      ContinueBroken(x, fs[1..], rest);
      assert tail + rest != [];
      if rest != [] {
        PrependTwice(f.chunk, Joined(fs[1..]), rest, Continue(x, rest));
      }
    }
  }

  lemma BrokenChainRefused(x: byte, fs: seq<Fragment>, rest: bytes)
    requires fs != [] && forall i :: 0 <= i < |fs| ==> FragmentFits(fs[i]) && fs[i].flags >= 0x80
    ensures rest == [] ==> Reassembled(ChainBytes(x, fs) + rest) == Err(InvalidAttribute)
    ensures rest != [] && UnmarshalExtended(rest).Err? ==>
              Reassembled(ChainBytes(x, fs) + rest) == Err(UnmarshalExtended(rest).error)
    ensures rest != [] && UnmarshalExtended(rest).Ok?
            && (UnmarshalExtended(rest).value.0.typ != 242 || UnmarshalExtended(rest).value.0.extType != x) ==>
              Reassembled(ChainBytes(x, fs) + rest) == Err(InvalidAttribute)
  {
    ContinueBroken(x, fs, rest);
    assert FragmentFits(fs[0]);
    Assoc(Piece(Long(x, fs[0].chunk), fs[0].flags), ChainBytes(x, fs[1..]), rest);
    UnmarshalPiece(Long(x, fs[0].chunk), fs[0].flags, ChainBytes(x, fs[1..]) + rest);
  }

  lemma ChainOne(x: byte, flags: byte, chunk: bytes)
    requires |chunk| <= FRAGMENT_MAX && flags < 0x80
    ensures IsChain([Fragment(flags, chunk)])
    ensures ChainBytes(x, [Fragment(flags, chunk)]) == Piece(Long(x, chunk), flags)
    ensures Joined([Fragment(flags, chunk)]) == chunk
  {
    var fs := [Fragment(flags, chunk)];
    assert fs[1..] == [];
  }

  lemma ChainCons(x: byte, flags: byte, chunk: bytes, fs: seq<Fragment>)
    requires |chunk| <= FRAGMENT_MAX && flags >= 0x80 && IsChain(fs)
    ensures IsChain([Fragment(flags, chunk)] + fs)
    ensures ChainBytes(x, [Fragment(flags, chunk)] + fs) == Piece(Long(x, chunk), flags) + ChainBytes(x, fs)
    ensures Joined([Fragment(flags, chunk)] + fs) == chunk + Joined(fs)
  {
    var all := [Fragment(flags, chunk)] + fs;
    assert all[1..] == fs;
    forall i | 0 <= i < |all|
      ensures FragmentFits(all[i]) && (all[i].flags >= 0x80 <==> i < |all| - 1)
    {
      if i > 0 {
        assert all[i] == fs[i - 1] && FragmentFits(fs[i - 1]);
      }
    }
  }

  lemma {:induction false} ContinueShape(x: byte, data: bytes) returns (fs: seq<Fragment>)
    requires Continue(x, data).Ok?
    ensures IsChain(fs)
    ensures (var (value, rest) := Continue(x, data).value;
             data == ChainBytes(x, fs) + rest && value == Joined(fs))
    decreases |data|
  {
    UnmarshalLong(data);
    var (f, rest) := UnmarshalExtended(data).value;
    if data[3] < 0x80 {
      fs := [Fragment(data[3], f.value)];
      ChainOne(x, data[3], f.value);
    } else {
      var tail := ContinueShape(x, rest);
      ChainCons(x, data[3], f.value, tail);
      fs := [Fragment(data[3], f.value)] + tail;
      Assoc(Piece(f, data[3]), ChainBytes(x, tail), Continue(x, rest).value.1);
    }
  }

  // Reassembly succeeds on Type 242 exactly when the input is a chain of fragments of
  // one Extended-Type followed by the returned remainder.
  lemma ReassembledIff(data: bytes, x: byte, value: bytes, rest: bytes)
    ensures Reassembled(data) == Ok((Long(x, value), rest))
       <==> exists fs: seq<Fragment> :: IsChain(fs) && data == ChainBytes(x, fs) + rest && value == Joined(fs)
  {
    if Reassembled(data) == Ok((Long(x, value), rest)) {
      var fs := ContinueShape(x, data);
      assert IsChain(fs) && data == ChainBytes(x, fs) + rest && value == Joined(fs);
    }
    forall fs: seq<Fragment> | IsChain(fs) && data == ChainBytes(x, fs) + rest && value == Joined(fs)
      ensures Reassembled(data) == Ok((Long(x, value), rest))
    {
      ContinueChain(x, fs, rest);
      assert FragmentFits(fs[0]);
      Assoc(Piece(Long(x, fs[0].chunk), fs[0].flags), ChainBytes(x, fs[1..]), rest);
      UnmarshalPiece(Long(x, fs[0].chunk), fs[0].flags, ChainBytes(x, fs[1..]) + rest);
    }
  }

  // ----- the fragments that are sent -----

  function Split(value: bytes): (fs: seq<Fragment>)
    ensures fs != []
    decreases |value|
  {
    if |value| <= FRAGMENT_MAX then [Fragment(0, value)]
    else [Fragment(0x80, value[..FRAGMENT_MAX])] + Split(value[FRAGMENT_MAX..])
  }

  lemma FirstFragment(x: byte, value: bytes)
    ensures (var all := FragmentBytes(x, value);
             |all| >= 4 && all[0..4]
             == [242, (4 + if |value| <= 251 then |value| else 251) as byte, x, if |value| <= 251 then 0 else 0x80]
             && (|value| > 251 ==> |all| >= 255 && all[255..] == FragmentBytes(x, value[251..])))
  {
  }

  lemma SliceBehind(s: bytes, n: nat, t: bytes, i: nat)
    requires n <= |s| && s[n..] == t && i + 4 <= |t|
    ensures n + i + 4 <= |s| && s[n + i..n + i + 4] == t[i..i + 4]
  {
  }

  // The header of fragment `i`: Type 242, its Length, the extended type, and a flags octet
  // with the More bit alone, or nothing in the last fragment.
  lemma {:induction false} FragmentHeader(x: byte, value: bytes, i: nat)
    requires i == 0 || 251 * i < |value|
    ensures (var left := |value| - 251 * i;
             255 * i + 4 <= |FragmentBytes(x, value)|
             && FragmentBytes(x, value)[255 * i..255 * i + 4]
                == [242, (4 + if left <= 251 then left else 251) as byte, x, if left <= 251 then 0 else 0x80])
    decreases i
  {
    FirstFragment(x, value);
    if i > 0 {
      FragmentHeader(x, value[251..], i - 1);
      SliceBehind(FragmentBytes(x, value), 255, FragmentBytes(x, value[251..]), 255 * (i - 1));
    }
  }

  lemma {:induction false} SplitChain(x: byte, value: bytes)
    ensures IsChain(Split(value)) && Joined(Split(value)) == value
    ensures ChainBytes(x, Split(value)) == FragmentBytes(x, value)
    decreases |value|
  {
    if |value| <= FRAGMENT_MAX {
      ChainOne(x, 0, value);
    } else {
      SplitChain(x, value[FRAGMENT_MAX..]);
      ChainCons(x, 0x80, value[..FRAGMENT_MAX], Split(value[FRAGMENT_MAX..]));
      assert value[..FRAGMENT_MAX] + value[FRAGMENT_MAX..] == value;
    }
  }

  lemma {:induction false} SplitCount(value: bytes)
    ensures |Split(value)| == if value == [] then 1 else (|value| + FRAGMENT_MAX - 1) / FRAGMENT_MAX
    decreases |value|
  {
    if |value| > FRAGMENT_MAX {
      SplitCount(value[FRAGMENT_MAX..]);
    }
  }

  lemma {:induction false} JoinedBound(fs: seq<Fragment>)
    requires forall i :: 0 <= i < |fs| ==> FragmentFits(fs[i])
    ensures |Joined(fs)| <= FRAGMENT_MAX * |fs|
  {
    if fs != [] {
      assert FragmentFits(fs[0]);
      JoinedBound(fs[1..]);
    }
  }

  // No chain carries the value in fewer fragments.
  lemma FewestFragments(fs: seq<Fragment>)
    requires IsChain(fs)
    ensures |Split(Joined(fs))| <= |fs|
  {
    SplitCount(Joined(fs));
    JoinedBound(fs);
  }

  // What is sent is reassembled to what was given, before any trailer, exactly for
  // all Type 242 values and for the others up to 252 octets.
  lemma FragmentRoundTripIff(e: ExtendedAttribute, trailer: bytes)
    requires IsExtendedType(e.typ)
    ensures (MarshalFragments(e).Ok? && Reassembled(MarshalFragments(e).value + trailer) == Ok((e, trailer)))
       <==> IsLong(e.typ) || |e.value| <= 252
  {
    if IsLong(e.typ) {
      SplitChain(e.extType, e.value);
      assert e == Long(e.extType, e.value);
      ReassembledIff(FragmentBytes(e.extType, e.value) + trailer, e.extType, e.value, trailer);
    } else {
      ExtendedRoundTripIff(e, trailer);
    }
  }

  // ----- fragments as attributes of a packet -----

  function FragmentAttribute(x: byte, f: Fragment): Attribute {
    Attribute(EXTENDED_TYPE_2, [x, f.flags] + f.chunk)
  }

  function FragmentAttributes(x: byte, fs: seq<Fragment>): seq<Attribute> {
    if fs == [] then [] else [FragmentAttribute(x, fs[0])] + FragmentAttributes(x, fs[1..])
  }

  lemma PieceIsTlv(x: byte, f: Fragment)
    requires FragmentFits(f)
    ensures Fits(FragmentAttribute(x, f)) && Piece(Long(x, f.chunk), f.flags) == Tlv(FragmentAttribute(x, f))
  {
  }

  lemma {:induction false} ChainIsEncoding(x: byte, fs: seq<Fragment>)
    requires forall i :: 0 <= i < |fs| ==> FragmentFits(fs[i])
    ensures AllFit(FragmentAttributes(x, fs)) && |FragmentAttributes(x, fs)| == |fs|
    ensures ChainBytes(x, fs) == Encode(FragmentAttributes(x, fs))
  {
    if fs != [] {
      assert FragmentFits(fs[0]);
      ChainIsEncoding(x, fs[1..]);
      assert FragmentAttributes(x, fs)[1..] == FragmentAttributes(x, fs[1..]);
      PieceIsTlv(x, fs[0]);
    }
  }

  // The octets of MarshalExtendedFragments are a list of well-formed attributes: the
  // attribute loop of a packet reads them as max(1, ceil(n / 251)) attributes.
  lemma FragmentsAreAttributes(e: ExtendedAttribute)
    requires IsLong(e.typ)
    ensures (var wire := MarshalFragments(e).value;
             DecodeAll(wire).Ok? && AllFit(DecodeAll(wire).value)
             && |DecodeAll(wire).value| == if e.value == [] then 1 else (|e.value| + 250) / 251)
  {
    SplitChain(e.extType, e.value);
    SplitCount(e.value);
    ChainIsEncoding(e.extType, Split(e.value));
    DecodeEncode(FragmentAttributes(e.extType, Split(e.value)));
  }
}
