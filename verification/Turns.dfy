// One request of a client and what the application has to say to it, as both servers
// of server/server.go see it.
module Turns {
  import opened Bytes
  import opened Wire
  import opened Attributes
  import opened Walks
  import opened Serialize
  import opened Packet
  import opened Exchange
  import opened Session
  import opened Framing
  import opened Server

  // Request `m` goes out as `p`. The handler replies with `code` and `attrs`, which goes
  // out as `out`, or says nothing.
  datatype Turn =
    | Spoken(m: Message, p: bytes, code: byte, attrs: seq<Attribute>, out: bytes)
    | Unspoken(m: Message, p: bytes)

  ghost predicate Honest(s: Service, t: Turn) {
    && IsRequestCode(t.m.code) && RoomForMA(t.m.attrs) && (IsSelfSigned(t.m.code) ==> StandardMA(t.m.attrs))
    && Marshaled(s.md5, s.hmac, t.m, s.secret) == Ok(t.p)
    && Unmarshaled(s.md5, t.p, s.secret).Ok?
    && (var seen := Unmarshaled(s.md5, t.p, s.secret).value;
        match t
        case Spoken(_, _, code, attrs, out) =>
          IsResponseCode(code) && RoomForMA(attrs)
          && s.handler(seen) == Handled.Reply(ReplyWith(seen, code, attrs))
          && Marshaled(s.md5, s.hmac, ReplyWith(seen, code, attrs), s.secret) == Ok(out)
        case Unspoken(_, _) =>
          s.handler(seen) == Silent)
  }

  lemma TurnRead(s: Service, t: Turn)
    requires Honest(s, t)
    ensures WellFramed(t.p) && Unmarshaled(s.md5, t.p, s.secret).value.id == t.m.id
  {
    MarshaledIsFramed(s.md5, s.hmac, t.m, s.secret);
    SignedParts(s.md5, s.hmac, t.m, SerializeAttributes(s.md5, t.m.code, t.m.auth, s.secret, t.m.attrs).value, s.secret);
  }

  lemma ReplyFramed(s: Service, t: Turn)
    requires Honest(s, t) && t.Spoken?
    ensures WellFramed(t.out)
  {
    MarshaledIsFramed(s.md5, s.hmac, ReplyWith(Unmarshaled(s.md5, t.p, s.secret).value, t.code, t.attrs), s.secret);
  }

  // The client accepts the reply of a turn, checked against what it sent in that turn,
  // and reads the server's code and attributes.
  ghost predicate Accepted(s: Service, t: Turn)
    requires t.Spoken?
  {
    |t.p| >= 20 && RoomForMA(t.attrs)
    && exists mac, auth: Block ::
         VerifyResponse(s.md5, s.hmac, t.out, t.m.id, t.p[4..20], s.secret)
         == Ok(Message(t.code, t.m.id, auth, SetMA(t.attrs, mac)))
  }

  lemma TurnAccepted(s: Service, t: Turn)
    requires Honest(s, t) && t.Spoken?
    ensures Accepted(s, t)
  {
    HonestExchange(s.md5, s.hmac, t.m, s.secret, t.code, t.attrs);
  }
}
