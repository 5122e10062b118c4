// transport/framed.go and transport/tcp.go: RADIUS packets cut out of a byte stream
// by their Length field (section 2.1 of RFC 6613).
module Framing {
  import opened Bytes
  import opened Wire
  import opened Attributes
  import opened Walks
  import opened Serialize
  import opened Packet
  import opened Exchange

  function Concat(parts: seq<bytes>): bytes {
    if parts == [] then [] else parts[0] + Concat(parts[1..])
  }

  // ----- what one read means -----

  function ValidateRadiusLength(header: bytes): Result<nat>
    requires |header| == 4
  {
    var length := Uint16(header[2..4]);
    if length < PACKET_MIN_LENGTH || length > MaxLengthForCode(header[0]) then Err(MalformedPacket) else Ok(length)
  }

  // The packet at the front of the stream, and what is left unread. A malformed
  // length leaves everything behind its four header octets; a stream that ends
  // inside a packet is used up.
  function ReadNext(stream: bytes): (Result<bytes>, bytes) {
    if |stream| < 4 then (Err(ConnClosed), [])
    else
      match ValidateRadiusLength(stream[..4])
      case Err(e) => (Err(e), stream[4..])
      case Ok(length) =>
        if |stream| < length then (Err(ConnClosed), []) else (Ok(stream[..length]), stream[length..])
  }

  predicate WellFramed(p: bytes) {
    |p| >= PACKET_MIN_LENGTH && |p| <= MaxLengthForCode(p[0]) && Uint16(p[2..4]) == |p|
  }

  // A read returns a packet exactly when the stream starts with a well-framed one,
  // and takes no octet behind it.
  lemma ReadNextIff(stream: bytes, p: bytes, rest: bytes)
    ensures ReadNext(stream) == (Ok(p), rest) <==> WellFramed(p) && stream == p + rest
  {
    if WellFramed(p) && stream == p + rest {
      assert stream[..4] == p[..4] && stream[..4][2..4] == p[2..4];
      assert stream[..|p|] == p && stream[|p|..] == rest;
    }
    if ReadNext(stream) == (Ok(p), rest) {
      assert stream[..4][2..4] == p[2..4];
    }
  }

  // A length out of bounds is the only malformed packet: a stream that ends inside its
  // header or inside the declared length counts as closed.
  lemma ReadErrsIff(stream: bytes)
    ensures ReadNext(stream).0 == Err(MalformedPacket)
       <==> |stream| >= 4 && !(PACKET_MIN_LENGTH <= Uint16(stream[2..4]) <= MaxLengthForCode(stream[0]))
    ensures ReadNext(stream).0 == Err(ConnClosed)
       <==> |stream| < 4
            || (PACKET_MIN_LENGTH <= Uint16(stream[2..4]) <= MaxLengthForCode(stream[0]) && |stream| < Uint16(stream[2..4]))
  {
    assert |stream| >= 4 ==> stream[..4][2..4] == stream[2..4];
  }

  // ----- a whole stream -----

  // Reads until one fails: the packets, the error, and what was left at that point.
  function ReadAll(stream: bytes): (seq<bytes>, Error, bytes)
    decreases |stream|
  {
    match ReadNext(stream)
    case (Err(e), rest) => ([], e, stream)
    case (Ok(p), rest) =>
      ReadNextIff(stream, p, rest);
      var (ps, e, left) := ReadAll(rest);
      ([p] + ps, e, left)
  }

  ghost predicate AllWellFramed(ps: seq<bytes>) {
    forall i :: 0 <= i < |ps| ==> WellFramed(ps[i])
  }

  lemma {:induction false} ReadAllFramed(ps: seq<bytes>, tail: bytes)
    requires AllWellFramed(ps)
    ensures ReadAll(Concat(ps) + tail) == (ps + ReadAll(tail).0, ReadAll(tail).1, ReadAll(tail).2)
  {
    if ps == [] {
      assert Concat(ps) + tail == tail && ps + ReadAll(tail).0 == ReadAll(tail).0;
    } else {
      Assoc(ps[0], Concat(ps[1..]), tail);
      ReadNextIff(Concat(ps) + tail, ps[0], Concat(ps[1..]) + tail);
      ReadAllFramed(ps[1..], tail);
      Assoc([ps[0]], ps[1..], ReadAll(tail).0);
      assert [ps[0]] + ps[1..] == ps;
    }
  }

  lemma {:induction false} ReadAllShape(stream: bytes)
    ensures (var (ps, e, left) := ReadAll(stream);
             AllWellFramed(ps) && stream == Concat(ps) + left && ReadNext(left).0 == Err(e))
    decreases |stream|
  {
    match ReadNext(stream)
    case (Err(e), rest) =>
      assert stream == Concat([]) + stream;
    case (Ok(p), rest) =>
      ReadNextIff(stream, p, rest);
      ReadAllShape(rest);
      var (ps, e, left) := ReadAll(rest);
      assert ([p] + ps)[1..] == ps;
      Assoc(p, Concat(ps), left);
  }

  // The packets read from a connection that closes are exactly those sent, when and
  // only when each was well framed; there is one such reading of every stream.
  lemma StreamReadBackIff(ps: seq<bytes>)
    ensures ReadAll(Concat(ps)) == (ps, ConnClosed, []) <==> AllWellFramed(ps)
  {
    if AllWellFramed(ps) {
      ReadAllFramed(ps, []);
      assert Concat(ps) + [] == Concat(ps) && ReadAll([]) == ([], ConnClosed, []) && ps + [] == ps;
    } else if ReadAll(Concat(ps)) == (ps, ConnClosed, []) {
      ReadAllShape(Concat(ps));
    }
  }

  // ----- what Marshal writes is well framed -----

  lemma MarshaledIsFramed(md5: Hash, hmac: Mac, m: Message, secret: bytes)
    requires Marshaled(md5, hmac, m, secret).Ok?
    ensures WellFramed(Marshaled(md5, hmac, m, secret).value)
  {
    SignedParts(md5, hmac, m, SerializeAttributes(md5, m.code, m.auth, secret, m.attrs).value, secret);
  }

  ghost predicate AllMarshaled(md5: Hash, hmac: Mac, secret: bytes, ms: seq<Message>, ps: seq<bytes>) {
    |ps| == |ms| && forall i :: 0 <= i < |ms| ==> Marshaled(md5, hmac, ms[i], secret) == Ok(ps[i])
  }

  // Any packets that Marshal produced, written one after the other, are read back one
  // by one.
  lemma MarshaledStreamReadBack(md5: Hash, hmac: Mac, secret: bytes, ms: seq<Message>, ps: seq<bytes>)
    requires AllMarshaled(md5, hmac, secret, ms, ps)
    ensures ReadAll(Concat(ps)) == (ps, ConnClosed, [])
  {
    forall i | 0 <= i < |ps|
      ensures WellFramed(ps[i])
    {
      assert Marshaled(md5, hmac, ms[i], secret) == Ok(ps[i]);
      MarshaledIsFramed(md5, hmac, ms[i], secret);
    }
    StreamReadBackIff(ps);
  }

  // ----- the connection -----

  // A stream connection delivers its octets in pieces of its own choosing.
  class Conn {
    var chunks: seq<bytes>

    constructor (chunks: seq<bytes>)
      ensures this.chunks == chunks
    {
      this.chunks := chunks;
    }

    function Stream(): bytes
      reads this
    {
      Concat(chunks)
    }

    // One Read: at most `n` octets, fewer if the next piece is shorter; nothing but
    // end-of-file behind the last piece.
    method Read(n: nat) returns (data: bytes, eof: bool)
      modifies this
      ensures eof <==> old(chunks) == []
      ensures data + Stream() == old(Stream()) && |data| <= n
      ensures !eof && n > 0 ==> (|chunks| < |old(chunks)| || |data| == n)
      ensures |chunks| <= |old(chunks)|
    {
      if chunks == [] {
        return [], true;
      }
      var c, more := chunks[0], chunks[1..];
      if |c| <= n {
        chunks := more;
        return c, false;
      }
      data, eof := c[..n], false;
      chunks := [c[n..]] + more;
      assert ([c[n..]] + more)[1..] == more && c == c[..n] + c[n..];
      Assoc(c[..n], c[n..], Concat(more));
    }

    // io.ReadFull.
    method ReadFull(n: nat) returns (data: bytes, ok: bool)
      modifies this
      ensures ok <==> n == 0 || n <= |old(Stream())|
      ensures ok ==> n <= |old(Stream())| && data == old(Stream())[..n] && Stream() == old(Stream())[n..]
      ensures !ok ==> Stream() == []
    {
      data, ok := [], true;
      while |data| < n && ok
        invariant |data| <= n
        invariant data + Stream() == old(Stream())
        invariant !ok ==> |data| < n && Stream() == []
        decreases ok, |chunks|, n - |data|
      {
        ghost var before, got := Stream(), data;
        var more, eof := Read(n - |data|);
        if eof {
          ok := false;
          assert before == [] && more == [];
        }
        Assoc(got, more, Stream());
        data := data + more;
      }
      assert ok ==> old(Stream())[..n] == data;
    }
  }

  lemma TwoCopies(blank: bytes, a: bytes, b: bytes)
    requires |blank| == |a| + |b|
    ensures Overwrite(Overwrite(blank, 0, a), |a|, b) == a + b
  {
  }

  // readFramedStream: header and payload land in one buffer.
  method ReadFramedStream(c: Conn) returns (r: Result<bytes>)
    modifies c
    ensures (r, c.Stream()) == ReadNext(old(c.Stream()))
  {
    var header, ok := c.ReadFull(4);
    if !ok {
      return Err(ConnClosed);
    }
    var length := ValidateRadiusLength(header);
    if length.Err? {
      return Err(length.error);
    }
    var out := new byte[length.value](_ => 0);
    ghost var blank := out[..];
    CopyInto(out, 0, header);
    ghost var stream := old(c.Stream());
    assert c.Stream() == stream[4..];
    var payload, filled := c.ReadFull(length.value - 4);
    if !filled {
      return Err(ConnClosed);
    }
    CopyInto(out, 4, payload);
    TwoCopies(blank, header, payload);
    TwoReads(stream, length.value);
    return Ok(out[..]);
  }

  // TCPConn.ReadPacket: its own bounds checks, and a buffer of its own for the payload.
  method ReadPacket(c: Conn) returns (r: Result<bytes>)
    modifies c
    ensures (r, c.Stream()) == ReadNext(old(c.Stream()))
  {
    var header, ok := c.ReadFull(4);
    if !ok {
      return Err(ConnClosed);
    }
    var length := Uint16(header[2..4]);
    if length < PACKET_MIN_LENGTH {
      return Err(MalformedPacket);
    }
    var maxLen := PACKET_MAX_LENGTH_RFC2865;
    if IsAccounting(header[0]) {
      maxLen := PACKET_MAX_LENGTH_RFC2866;
    }
    if length > maxLen {
      return Err(MalformedPacket);
    }
    ghost var stream := old(c.Stream());
    assert c.Stream() == stream[4..];
    var payload, filled := c.ReadFull(length - 4);
    if !filled {
      return Err(ConnClosed);
    }
    TwoReads(stream, length);
    return Ok(header + payload);
  }

  lemma TwoReads(stream: bytes, length: nat)
    requires 4 <= length <= |stream|
    ensures stream[..4] + stream[4..][..length - 4] == stream[..length]
    ensures stream[4..][length - 4..] == stream[length..]
  {
  }
}
