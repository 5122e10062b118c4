// server/server.go: what one request comes to in either server, run without interruption.
module Server {
  import opened Bytes
  import opened Wire
  import opened Packet
  import opened PacketCodec
  import opened Serialize
  import opened Attributes
  import opened Dedup
  import opened Panics

  // The application: a reply, nothing, or an error.
  datatype Handled = Reply(packet: Message) | Silent | HandlerError

  type Handler = Message -> Handled

  // The digests, the handler and the secret a server works with.
  datatype Service = Service(md5: Hash, hmac: Mac, handler: Handler, secret: bytes)

  // How far handling gets. Answered: a fresh reply, Cached: the reply kept for a
  // duplicate. Waiting: that reply is still to come. Panicked: Marshal panics, and
  // nothing recovers, so the process is gone.
  datatype Handling =
    | Malformed
    | HandlerFailed
    | MarshalFailed
    | Panicked
    | Waiting
    | Quiet
    | Answered(out: bytes)
    | Cached(out: bytes)

  ghost predicate TableOk(table: Option<Table>) {
    table.Some? ==> table.value.Valid()
  }

  function SeenIn(table: Option<Table>, key: bytes, now: int): (t: Option<Table>)
    requires TableOk(table)
    ensures t.Some? == table.Some? && TableOk(t) && (t.Some? ==> key in t.value.entries)
  {
    if table.None? then None
    else
      EvictValid(table.value, now);
      Some(AfterSeen(table.value, key, now))
  }

  function StoredIn(table: Option<Table>, key: bytes, out: bytes): (t: Option<Table>)
    requires TableOk(table)
    ensures t.Some? == table.Some? && TableOk(t)
  {
    if table.None? then None else Some(AfterStore(table.value, key, out))
  }

  // Without a table nothing is a duplicate.
  predicate Repeated(table: Option<Table>, key: bytes, now: int)
    requires TableOk(table)
  {
    table.Some? && IsDuplicate(table.value, key, now)
  }

  // A duplicate is answered from its entry.
  function AnswerDuplicate(t: Table, key: bytes): Handling
    requires t.Valid() && key in t.entries
  {
    var e := t.arena[t.entries[key]];
    if !e.Done() then Waiting
    else match e.reply case None => Quiet case Some(out) => Cached(out)
  }

  // What the handler's word becomes on the wire.
  function HandlerOutput(s: Service, m: Message): Handling {
    match s.handler(m)
    case HandlerError => HandlerFailed
    case Silent => Quiet
    case Reply(reply) =>
      match Marshaled(s.md5, s.hmac, reply, s.secret)
      case Ok(out) => Answered(out)
      case Err(e) => if e == RuntimePanic then Panicked else MarshalFailed
  }

  function Handle(s: Service, table: Option<Table>, raw: bytes, addr: bytes, now: int): (r: (Handling, Option<Table>))
    requires TableOk(table)
    ensures r.1.Some? == table.Some? && TableOk(r.1)
  {
    match Unmarshaled(s.md5, raw, s.secret)
    case Err(_) => (Malformed, table)
    case Ok(m) =>
      var key := DedupKey(addr, m.id);
      var seen := SeenIn(table, key, now);
      if Repeated(table, key, now) then (AnswerDuplicate(seen.value, key), seen)
      else
        var h := HandlerOutput(s, m);
        (h, if h.Answered? then StoredIn(seen, key, h.out) else seen)
  }

  function ViewOf(dedup: Deduplicator?): (t: Option<Table>)
    reads dedup
  {
    if dedup == null then None else Some(dedup.View())
  }

  // Unmarshal, Seen, handler, Marshal, Store: the part both servers share.
  method HandleRequest(s: Service, dedup: Deduplicator?, raw: bytes, addr: bytes, now: int) returns (h: Handling)
    requires TableOk(ViewOf(dedup))
    modifies dedup
    ensures TableOk(ViewOf(dedup))
    ensures (h, ViewOf(dedup)) == Handle(s, old(ViewOf(dedup)), raw, addr, now)
  {
    var pkt := new PacketBuffer();
    var parsed := pkt.Unmarshal(s.md5, raw, s.secret);
    if parsed.Err? {
      return Malformed;
    }
    var key := DedupKey(addr, pkt.id);
    if dedup != null {
      var duplicate := dedup.Seen(key, now);
      if duplicate {
        if !dedup.arena[dedup.entries[key]].Done() {
          return Waiting;
        }
        var cached := dedup.Lookup(key);
        return if cached.Some? then Cached(cached.value) else Quiet;
      }
    }
    match s.handler(pkt.View())
    case HandlerError =>
      return HandlerFailed;
    case Silent =>
      return Quiet;
    case Reply(reply) =>
      var out := Marshaled(s.md5, s.hmac, reply, s.secret);
      if out.Err? {
        return if out.error == RuntimePanic then Panicked else MarshalFailed;
      }
      if dedup != null {
        dedup.Store(key, out.value);
      }
      return Answered(out.value);
  }

  // ----- what one request comes to, from its parts -----

  // The table holds an entry for the key that has not expired.
  predicate LiveIn(table: Option<Table>, key: bytes, now: int)
    requires TableOk(table)
  {
    table.Some? && LiveKey(table.value, key, now)
  }

  predicate IsFresh(s: Service, table: Option<Table>, raw: bytes, addr: bytes, now: int)
    requires TableOk(table)
  {
    var m := Unmarshaled(s.md5, raw, s.secret);
    m.Ok? && !LiveIn(table, DedupKey(addr, m.value.id), now)
  }

  predicate IsRepeat(s: Service, table: Option<Table>, raw: bytes, addr: bytes, now: int)
    requires TableOk(table)
  {
    var m := Unmarshaled(s.md5, raw, s.secret);
    m.Ok? && LiveIn(table, DedupKey(addr, m.value.id), now)
  }

  // What the table holds for a repeated request.
  function EntryFor(s: Service, table: Option<Table>, raw: bytes, addr: bytes, now: int): Entry
    requires TableOk(table) && IsRepeat(s, table, raw, addr, now)
  {
    Held(table.value, DedupKey(addr, Unmarshaled(s.md5, raw, s.secret).value.id))
  }

  lemma RepeatedIff(table: Option<Table>, key: bytes, now: int)
    requires TableOk(table)
    ensures Repeated(table, key, now) <==> LiveIn(table, key, now)
  {
    if table.Some? {
      DuplicateIff(table.value, key, now);
    }
  }

  // A fresh request comes to what the handler says and Marshal makes of it.
  lemma FreshHandledIff(s: Service, table: Option<Table>, raw: bytes, addr: bytes, now: int)
    requires TableOk(table) && IsFresh(s, table, raw, addr, now)
    ensures (var h := Handle(s, table, raw, addr, now).0;
             var said := s.handler(Unmarshaled(s.md5, raw, s.secret).value);
             (h == HandlerFailed <==> said == HandlerError)
             && (h == Quiet <==> said == Silent)
             && (forall out: bytes :: h == Answered(out) <==>
                   said.Reply? && Marshaled(s.md5, s.hmac, said.packet, s.secret) == Ok(out))
             && (h == Panicked <==> said.Reply? && Marshaled(s.md5, s.hmac, said.packet, s.secret) == Err(RuntimePanic))
             && (h == MarshalFailed <==>
                   said.Reply? && Marshaled(s.md5, s.hmac, said.packet, s.secret).Err?
                   && Marshaled(s.md5, s.hmac, said.packet, s.secret) != Err(RuntimePanic)))
  {
    RepeatedIff(table, DedupKey(addr, Unmarshaled(s.md5, raw, s.secret).value.id), now);
  }

  // A repeated one comes to what its entry holds.
  lemma RepeatHandledIff(s: Service, table: Option<Table>, raw: bytes, addr: bytes, now: int)
    requires TableOk(table) && IsRepeat(s, table, raw, addr, now)
    ensures (var h, e := Handle(s, table, raw, addr, now).0, EntryFor(s, table, raw, addr, now);
             (h == Waiting <==> e.closes == 0)
             && (h == Quiet <==> e.closes > 0 && e.reply == None)
             && (forall out: bytes :: h == Cached(out) <==> e.closes > 0 && e.reply == Some(out)))
  {
    var key := DedupKey(addr, Unmarshaled(s.md5, raw, s.secret).value.id);
    RepeatedIff(table, key, now);
    SeenIff(table.value, key, now);
  }

  lemma MalformedIff(s: Service, table: Option<Table>, raw: bytes, addr: bytes, now: int)
    requires TableOk(table)
    ensures Handle(s, table, raw, addr, now).0 == Malformed <==> Unmarshaled(s.md5, raw, s.secret).Err?
  {
    if Unmarshaled(s.md5, raw, s.secret).Ok? {
      if IsFresh(s, table, raw, addr, now) {
        FreshHandledIff(s, table, raw, addr, now);
      } else {
        RepeatHandledIff(s, table, raw, addr, now);
      }
    }
  }

  // The table behind a request. Nothing else touches it: a packet that does not unmarshal
  // leaves it alone, a repeated request only evicts, and a fresh one adds its entry, with
  // the reply exactly when there is one.
  lemma TableAfterIff(s: Service, t: Table, raw: bytes, addr: bytes, now: int)
    requires t.Valid()
    ensures Handle(s, Some(t), raw, addr, now).1.Some? && Handle(s, Some(t), raw, addr, now).1.value.Valid()
    ensures (var (h, next) := Handle(s, Some(t), raw, addr, now);
             var n, m := next.value, Unmarshaled(s.md5, raw, s.secret);
             n.ttl == t.ttl
             && (m.Err? ==> n == t)
             && (m.Ok? ==>
                   var key := DedupKey(addr, m.value.id);
                   (forall k :: k in n.entries <==> k == key || LiveKey(t, k, now))
                   && (forall k :: LiveKey(t, k, now) ==> Held(n, k) == Held(t, k))
                   && (!LiveKey(t, key, now) ==>
                         Held(n, key) == if h.Answered? then Entry(key, Some(h.out), 1, now + t.ttl)
                                         else Entry(key, None, 0, now + t.ttl))))
  {
    var m := Unmarshaled(s.md5, raw, s.secret);
    if m.Ok? {
      var key := DedupKey(addr, m.value.id);
      DuplicateIff(t, key, now);
      SeenIff(t, key, now);
      var seen := AfterSeen(t, key, now);
      var h := Handle(s, Some(t), raw, addr, now).0;
      if h.Answered? {
        MarshaledNotEmpty(s.md5, s.hmac, s.handler(m.value).packet, s.secret);
        StoreIff(seen, key, h.out);
      }
    }
  }

  lemma MarshaledNotEmpty(md5: Hash, hmac: Mac, m: Message, secret: bytes)
    ensures Marshaled(md5, hmac, m, secret).Ok? ==> |Marshaled(md5, hmac, m, secret).value| >= 20
  {
  }

  // The process ends exactly on a fresh request to which the handler replies with a
  // packet that could be sent but whose Message-Authenticator overruns its section.
  lemma PanickedIff(s: Service, table: Option<Table>, raw: bytes, addr: bytes, now: int)
    requires TableOk(table)
    ensures Handle(s, table, raw, addr, now).0 == Panicked
       <==> (var m := Unmarshaled(s.md5, raw, s.secret);
             IsFresh(s, table, raw, addr, now) && s.handler(m.value).Reply?
             && (var reply := s.handler(m.value).packet;
                 Emittable(reply, s.secret) && WireOverruns(reply.code, reply.attrs)))
  {
    var m := Unmarshaled(s.md5, raw, s.secret);
    if m.Ok? {
      RepeatedIff(table, DedupKey(addr, m.value.id), now);
    }
    if m.Ok? && s.handler(m.value).Reply? {
      MarshalPanicsIff(s.md5, s.hmac, s.handler(m.value).packet, s.secret);
    }
  }

  // ----- retransmissions -----

  // Whatever carries the Identifier of an answered request from the same address, and
  // arrives before its entry expires, is answered with the same octets, whatever its
  // handler would have said.
  lemma AnsweredFromEntry(s: Service, other: Service, t: Table, raw: bytes, again: bytes, addr: bytes, now: int, later: int)
    requires t.Valid() && later < now + t.ttl
    requires Unmarshaled(other.md5, again, other.secret).Ok? && IsFresh(s, Some(t), raw, addr, now)
    requires Unmarshaled(other.md5, again, other.secret).value.id == Unmarshaled(s.md5, raw, s.secret).value.id
    requires Handle(s, Some(t), raw, addr, now).0.Answered?
    ensures (var (answer, after) := Handle(s, Some(t), raw, addr, now);
             Handle(other, after, again, addr, later).0 == Cached(answer.out))
  {
    TableAfterIff(s, t, raw, addr, now);
    RepeatHandledIff(other, Handle(s, Some(t), raw, addr, now).1, again, addr, later);
  }

  // In particular a retransmission.
  lemma RetransmissionGetsSameReply(s: Service, t: Table, raw: bytes, addr: bytes, now: int, later: int, handler: Handler)
    requires t.Valid() && later < now + t.ttl && IsFresh(s, Some(t), raw, addr, now)
    requires Handle(s, Some(t), raw, addr, now).0.Answered?
    ensures (var (answer, after) := Handle(s, Some(t), raw, addr, now);
             Handle(s.(handler := handler), after, raw, addr, later).0 == Cached(answer.out))
  {
    AnsweredFromEntry(s, s.(handler := handler), t, raw, raw, addr, now, later);
  }

  // The entry of a request that got no answer stays open: a retransmission waits.
  lemma RetransmissionWaits(s: Service, t: Table, raw: bytes, addr: bytes, now: int, later: int)
    requires t.Valid() && later < now + t.ttl && IsFresh(s, Some(t), raw, addr, now)
    requires !Handle(s, Some(t), raw, addr, now).0.Answered?
    ensures Handle(s, Handle(s, Some(t), raw, addr, now).1, raw, addr, later).0 == Waiting
  {
    TableAfterIff(s, t, raw, addr, now);
    RepeatHandledIff(s, Handle(s, Some(t), raw, addr, now).1, raw, addr, later);
  }
}
