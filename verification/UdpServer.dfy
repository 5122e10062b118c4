// server/server.go, UDPServer.handleOne: what the sender of one datagram gets.
module UdpServer {
  import opened Bytes
  import opened Packet
  import opened Dedup
  import opened Panics
  import opened Server
  import opened Turns

  // Died: the process ends instead.
  datatype Answer = Sent(out: bytes) | Nothing | Blocked | Died

  // Errors are logged and otherwise ignored.
  function AnswerOf(h: Handling): Answer {
    match h
    case Answered(out) => Sent(out)
    case Cached(out) => Sent(out)
    case Waiting => Blocked
    case Panicked => Died
    case _ => Nothing
  }

  method HandleOne(s: Service, dedup: Deduplicator?, raw: bytes, addr: bytes, now: int) returns (answer: Answer)
    requires TableOk(ViewOf(dedup))
    modifies dedup
    ensures TableOk(ViewOf(dedup))
    ensures (var (h, after) := Handle(s, old(ViewOf(dedup)), raw, addr, now);
             ViewOf(dedup) == after && answer == AnswerOf(h))
  {
    var h := HandleRequest(s, dedup, raw, addr, now);
    match h
    case Answered(out) =>
      return Sent(out);
    case Cached(out) =>
      return Sent(out);
    case Waiting =>
      return Blocked;
    case Panicked =>
      return Died;
    case _ =>
      return Nothing;
  }

  // The answer, from the request, the table, the handler and Marshal alone. A fresh
  // request is answered exactly with what its reply marshals to, and a repeated one
  // exactly with what its done entry holds.
  lemma SentIff(s: Service, table: Option<Table>, raw: bytes, addr: bytes, now: int, out: bytes)
    requires TableOk(table)
    ensures AnswerOf(Handle(s, table, raw, addr, now).0) == Sent(out)
       <==> if IsRepeat(s, table, raw, addr, now)
            then EntryFor(s, table, raw, addr, now).closes > 0 && EntryFor(s, table, raw, addr, now).reply == Some(out)
            else IsFresh(s, table, raw, addr, now)
                 && (var said := s.handler(Unmarshaled(s.md5, raw, s.secret).value);
                     said.Reply? && Marshaled(s.md5, s.hmac, said.packet, s.secret) == Ok(out))
  {
    MalformedIff(s, table, raw, addr, now);
    if IsRepeat(s, table, raw, addr, now) {
      RepeatHandledIff(s, table, raw, addr, now);
    } else if IsFresh(s, table, raw, addr, now) {
      FreshHandledIff(s, table, raw, addr, now);
    }
  }

  // It waits exactly on an entry whose handler has not answered yet.
  lemma BlockedIff(s: Service, table: Option<Table>, raw: bytes, addr: bytes, now: int)
    requires TableOk(table)
    ensures AnswerOf(Handle(s, table, raw, addr, now).0) == Blocked
       <==> IsRepeat(s, table, raw, addr, now) && EntryFor(s, table, raw, addr, now).closes == 0
  {
    MalformedIff(s, table, raw, addr, now);
    if IsRepeat(s, table, raw, addr, now) {
      RepeatHandledIff(s, table, raw, addr, now);
    } else if IsFresh(s, table, raw, addr, now) {
      FreshHandledIff(s, table, raw, addr, now);
    }
  }

  lemma DiedIff(s: Service, table: Option<Table>, raw: bytes, addr: bytes, now: int)
    requires TableOk(table)
    ensures AnswerOf(Handle(s, table, raw, addr, now).0) == Died
       <==> IsFresh(s, table, raw, addr, now)
            && (var said := s.handler(Unmarshaled(s.md5, raw, s.secret).value);
                said.Reply? && Emittable(said.packet, s.secret) && WireOverruns(said.packet.code, said.packet.attrs))
  {
    MalformedIff(s, table, raw, addr, now);
    if IsRepeat(s, table, raw, addr, now) {
      RepeatHandledIff(s, table, raw, addr, now);
    } else if IsFresh(s, table, raw, addr, now) {
      FreshHandledIff(s, table, raw, addr, now);
    }
    PanickedIff(s, table, raw, addr, now);
  }

  // Nothing at all comes back exactly for a packet that does not unmarshal, for a fresh
  // request without a reply that can be sent, and for a repeated one whose entry was
  // closed without a reply.
  lemma NothingIff(s: Service, table: Option<Table>, raw: bytes, addr: bytes, now: int)
    requires TableOk(table)
    ensures AnswerOf(Handle(s, table, raw, addr, now).0) == Nothing
       <==> (Unmarshaled(s.md5, raw, s.secret).Err?
             || (IsRepeat(s, table, raw, addr, now)
                 && EntryFor(s, table, raw, addr, now).closes > 0 && EntryFor(s, table, raw, addr, now).reply == None)
             || (IsFresh(s, table, raw, addr, now)
                 && (var said := s.handler(Unmarshaled(s.md5, raw, s.secret).value);
                     !said.Reply? || (Marshaled(s.md5, s.hmac, said.packet, s.secret).Err?
                                      && Marshaled(s.md5, s.hmac, said.packet, s.secret) != Err(RuntimePanic)))))
  {
    MalformedIff(s, table, raw, addr, now);
    if IsRepeat(s, table, raw, addr, now) {
      RepeatHandledIff(s, table, raw, addr, now);
    } else if IsFresh(s, table, raw, addr, now) {
      FreshHandledIff(s, table, raw, addr, now);
    }
  }

  // ----- an exchange over datagrams -----

  // The sender of an honest request gets the octets its own VerifyResponse accepts, or,
  // where the handler is silent, nothing.
  lemma DatagramAnswered(s: Service, table: Option<Table>, t: Turn, addr: bytes, now: int)
    requires TableOk(table) && Honest(s, t) && IsFresh(s, table, t.p, addr, now)
    ensures t.Spoken? ==> AnswerOf(Handle(s, table, t.p, addr, now).0) == Sent(t.out) && Accepted(s, t)
    ensures t.Unspoken? ==> AnswerOf(Handle(s, table, t.p, addr, now).0) == Nothing
  {
    FreshHandledIff(s, table, t.p, addr, now);
    if t.Spoken? {
      TurnAccepted(s, t);
    }
  }

  lemma AnsweredAgain(s: Service, other: Service, t: Table, next: Option<Table>, raw: bytes, addr: bytes, now: int, later: int,
                      out: bytes)
    requires t.Valid() && IsFresh(s, Some(t), raw, addr, now) && later < now + t.ttl
    requires Handle(s, Some(t), raw, addr, now) == (Answered(out), next) && other == s.(handler := other.handler)
    ensures TableOk(next) && AnswerOf(Handle(other, next, raw, addr, later).0) == Sent(out)
  {
    RetransmissionGetsSameReply(s, t, raw, addr, now, later, other.handler);
  }

  // A retransmission within ttl gets the same octets once more, even from a server that
  // has a new handler by then ...
  lemma DatagramRetransmitted(s: Service, t0: Table, t: Turn, addr: bytes, now: int, later: int, handler: Handler)
    requires t0.Valid() && Honest(s, t) && t.Spoken? && IsFresh(s, Some(t0), t.p, addr, now) && later < now + t0.ttl
    ensures (var next := Handle(s, Some(t0), t.p, addr, now).1;
             AnswerOf(Handle(s.(handler := handler), next, t.p, addr, later).0) == Sent(t.out))
  {
    FreshHandledIff(s, Some(t0), t.p, addr, now);
    AnsweredAgain(s, s.(handler := handler), t0, Handle(s, Some(t0), t.p, addr, now).1, t.p, addr, now, later, t.out);
  }

  // ... and that of a request without an answer waits.
  lemma SilentRetransmitted(s: Service, t0: Table, t: Turn, addr: bytes, now: int, later: int)
    requires t0.Valid() && Honest(s, t) && t.Unspoken? && IsFresh(s, Some(t0), t.p, addr, now) && later < now + t0.ttl
    ensures (var next := Handle(s, Some(t0), t.p, addr, now).1;
             AnswerOf(Handle(s, next, t.p, addr, later).0) == Blocked)
  {
    FreshHandledIff(s, Some(t0), t.p, addr, now);
    RetransmissionWaits(s, t0, t.p, addr, now, later);
  }
}
