// server/server.go, TCPServer.handleConn: requests cut out of a stream, handled one
// after the other, answered in order.
module TcpServer {
  import opened Bytes
  import opened Wire
  import opened Attributes
  import opened Walks
  import opened Serialize
  import opened Packet
  import opened Exchange
  import opened Session
  import opened Framing
  import opened Dedup
  import opened Server
  import opened Turns

  // One connection: the client's address, the clock reading taken for each request,
  // and whether the write of its answer succeeds.
  datatype Peer = Peer(s: Service, addr: bytes, clock: nat -> int, writable: nat -> bool)

  // How a server reacts to request `i`, given its table.
  type Reaction = (Option<Table>, bytes, nat) -> (Handling, Option<Table>)

  ghost function ReactionOf(p: Peer): Reaction {
    (table: Option<Table>, raw: bytes, i: nat) =>
      if TableOk(table) then Handle(p.s, table, raw, p.addr, p.clock(i)) else (Quiet, table)
  }

  lemma ReactionMeans(p: Peer, table: Option<Table>, raw: bytes, i: nat)
    requires TableOk(table)
    ensures ReactionOf(p)(table, raw, i) == Handle(p.s, table, raw, p.addr, p.clock(i))
  {
  }

  // What a write puts on the wire.
  function Wrote(ok: bool, out: bytes): seq<bytes> {
    if ok then [out] else []
  }

  // What one request puts on the connection, and whether the next one is read. A packet
  // that does not unmarshal, a handler error, a failed Marshal and a failed write of a
  // fresh reply close it; a silent handler and a failed write of a cached reply do not. A
  // Lookup that waits leaves it standing, and a panic ends it with the process.
  function Outcome(h: Handling, ok: bool): (seq<bytes>, bool) {
    match h
    case Answered(out) => (Wrote(ok, out), ok)
    case Cached(out) => (Wrote(ok, out), true)
    case Quiet => ([], true)
    case _ => ([], false)
  }

  // What is written on a connection that delivers `stream`, from its request `i` on,
  // until a framing error or the end of the stream.
  function Served(react: Reaction, writable: nat -> bool, table: Option<Table>, i: nat, stream: bytes): seq<bytes>
    decreases |stream|
  {
    match ReadNext(stream)
    case (Err(_), _) => []
    case (Ok(raw), rest) =>
      ReadNextIff(stream, raw, rest);
      var (h, next) := react(table, raw, i);
      var (written, open) := Outcome(h, writable(i));
      if open then written + Served(react, writable, next, i + 1, rest) else written
  }

  method HandleConn(p: Peer, dedup: Deduplicator?, conn: Conn) returns (written: seq<bytes>)
    requires TableOk(ViewOf(dedup))
    modifies conn, dedup
    ensures written == Served(ReactionOf(p), p.writable, old(ViewOf(dedup)), 0, old(conn.Stream()))
  {
    written := [];
    var open, i := true, 0;
    ghost var react := ReactionOf(p);
    ghost var all := Served(react, p.writable, ViewOf(dedup), 0, conn.Stream());
    while open
      invariant TableOk(ViewOf(dedup))
      invariant open ==> written + Served(react, p.writable, ViewOf(dedup), i, conn.Stream()) == all
      invariant !open ==> written == all
      decreases open, |conn.Stream()|
    {
      ghost var stream := conn.Stream();
      var raw := ReadPacket(conn);
      if raw.Err? {
        return;
      }
      ReadNextIff(stream, raw.value, conn.Stream());
      ReactionMeans(p, ViewOf(dedup), raw.value, i);
      var h := HandleRequest(p.s, dedup, raw.value, p.addr, p.clock(i));
      var outcome := Outcome(h, p.writable(i));
      i := i + 1;
      Assoc(written, outcome.0, Served(react, p.writable, ViewOf(dedup), i, conn.Stream()));
      written, open := written + outcome.0, outcome.1;
    }
  }

  // ----- a pipelined conversation -----

  ghost predicate AllHonest(s: Service, ts: seq<Turn>) {
    forall k :: 0 <= k < |ts| ==> Honest(s, ts[k])
  }

  function Requests(ts: seq<Turn>): (ps: seq<bytes>)
    ensures |ps| == |ts|
  {
    if ts == [] then [] else [ts[0].p] + Requests(ts[1..])
  }

  // What a turn puts on the connection.
  function Said(t: Turn): seq<bytes> {
    match t
    case Spoken(_, _, _, _, out) => [out]
    case Unspoken(_, _) => []
  }

  function Replies(ts: seq<Turn>): seq<bytes> {
    if ts == [] then [] else Said(ts[0]) + Replies(ts[1..])
  }

  function KeyOf(p: Peer, t: Turn): bytes {
    DedupKey(p.addr, t.m.id)
  }

  // Turn `k` is no duplicate in the table when its time comes.
  ghost predicate Fresh(p: Peer, table: Option<Table>, i: nat, t: Turn) {
    TableOk(table) && !LiveIn(table, KeyOf(p, t), p.clock(i))
  }

  ghost predicate Different(ts: seq<Turn>) {
    forall k, l :: 0 <= k < l < |ts| ==> ts[k].m.id != ts[l].m.id
  }

  // With a table, the turns carry different Identifiers, and none is a duplicate of
  // what the table held before; without one anything goes. All replies can be written.
  ghost predicate Distinct(p: Peer, table: Option<Table>, i: nat, ts: seq<Turn>) {
    TableOk(table)
    && (forall k: nat :: k < |ts| ==> (ts[k].Spoken? ==> p.writable(i + k)) && Fresh(p, table, i + k, ts[k]))
    && (table.Some? ==> Different(ts))
  }

  // ----- one turn -----

  lemma TurnIsFresh(p: Peer, table: Option<Table>, i: nat, t: Turn)
    requires Honest(p.s, t) && Fresh(p, table, i, t)
    ensures IsFresh(p.s, table, t.p, p.addr, p.clock(i))
  {
    TurnRead(p.s, t);
  }

  lemma TurnHandled(p: Peer, table: Option<Table>, i: nat, t: Turn)
    requires Honest(p.s, t) && Fresh(p, table, i, t)
    ensures Handle(p.s, table, t.p, p.addr, p.clock(i)).0 == if t.Spoken? then Answered(t.out) else Quiet
  {
    TurnIsFresh(p, table, i, t);
    FreshHandledIff(p.s, table, t.p, p.addr, p.clock(i));
  }

  // A turn makes no request with another Identifier a duplicate.
  lemma OthersStayFresh(p: Peer, table: Option<Table>, i: nat, t: Turn, j: nat, other: Turn)
    requires Honest(p.s, t) && t.m.id != other.m.id && Fresh(p, table, j, other)
    ensures Fresh(p, Handle(p.s, table, t.p, p.addr, p.clock(i)).1, j, other)
  {
    TurnRead(p.s, t);
    KeysCollideIff(p.addr, t.m.id, p.addr, other.m.id);
    if table.Some? {
      TableAfterIff(p.s, table.value, t.p, p.addr, p.clock(i));
    }
  }

  // One answered request in front of the rest of a stream.
  lemma ServedWrites(react: Reaction, writable: nat -> bool, table: Option<Table>, i: nat, raw: bytes, rest: bytes)
    requires WellFramed(raw) && writable(i) && react(table, raw, i).0.Answered?
    ensures Served(react, writable, table, i, raw + rest)
         == [react(table, raw, i).0.out] + Served(react, writable, react(table, raw, i).1, i + 1, rest)
  {
    ReadNextIff(raw + rest, raw, rest);
  }

  // A request that is answered with silence leaves the connection as it was.
  lemma ServedQuiet(react: Reaction, writable: nat -> bool, table: Option<Table>, i: nat, raw: bytes, rest: bytes)
    requires WellFramed(raw) && react(table, raw, i).0.Quiet?
    ensures Served(react, writable, table, i, raw + rest) == Served(react, writable, react(table, raw, i).1, i + 1, rest)
  {
    ReadNextIff(raw + rest, raw, rest);
  }

  // ----- what one request does to the connection, from its parts -----

  // Nothing that follows is served, nothing is written.
  ghost predicate ClosedBy(p: Peer, table: Option<Table>, i: nat, raw: bytes, rest: bytes)
    requires TableOk(table)
  {
    Served(ReactionOf(p), p.writable, table, i, raw + rest) == []
  }

  // `written` goes out, and the rest of the stream is served with the table behind the request.
  ghost predicate GoesOnWith(p: Peer, table: Option<Table>, i: nat, raw: bytes, rest: bytes, written: seq<bytes>)
    requires TableOk(table)
  {
    Served(ReactionOf(p), p.writable, table, i, raw + rest)
    == written + Served(ReactionOf(p), p.writable, Handle(p.s, table, raw, p.addr, p.clock(i)).1, i + 1, rest)
  }

  lemma OutcomeServed(p: Peer, table: Option<Table>, i: nat, raw: bytes, rest: bytes)
    requires TableOk(table) && WellFramed(raw)
    ensures (var h := Handle(p.s, table, raw, p.addr, p.clock(i)).0;
             if Outcome(h, p.writable(i)).1 then GoesOnWith(p, table, i, raw, rest, Outcome(h, p.writable(i)).0)
             else Served(ReactionOf(p), p.writable, table, i, raw + rest) == Outcome(h, p.writable(i)).0)
  {
    ReadNextIff(raw + rest, raw, rest);
    ReactionMeans(p, table, raw, i);
  }

  // A stream that does not start with a well-framed packet, and a packet that does not
  // unmarshal, close the connection.
  lemma UnreadableCloses(p: Peer, table: Option<Table>, i: nat, stream: bytes)
    requires TableOk(table)
    requires ReadNext(stream).0.Err? || Unmarshaled(p.s.md5, ReadNext(stream).0.value, p.s.secret).Err?
    ensures Served(ReactionOf(p), p.writable, table, i, stream) == []
  {
    if ReadNext(stream).0.Ok? {
      var (raw, rest) := (ReadNext(stream).0.value, ReadNext(stream).1);
      ReadNextIff(stream, raw, rest);
      MalformedIff(p.s, table, raw, p.addr, p.clock(i));
      OutcomeServed(p, table, i, raw, rest);
    }
  }

  // A fresh request, by what the handler says and what its reply marshals to: silence
  // leaves the connection open, an error and a reply that cannot be marshaled or written
  // close it.
  lemma FreshServed(p: Peer, table: Option<Table>, i: nat, raw: bytes, rest: bytes)
    requires TableOk(table) && WellFramed(raw) && IsFresh(p.s, table, raw, p.addr, p.clock(i))
    ensures match p.s.handler(Unmarshaled(p.s.md5, raw, p.s.secret).value)
            case HandlerError => ClosedBy(p, table, i, raw, rest)
            case Silent => GoesOnWith(p, table, i, raw, rest, [])
            case Reply(packet) =>
              match Marshaled(p.s.md5, p.s.hmac, packet, p.s.secret)
              case Err(_) => ClosedBy(p, table, i, raw, rest)
              case Ok(out) =>
                if p.writable(i) then GoesOnWith(p, table, i, raw, rest, [out]) else ClosedBy(p, table, i, raw, rest)
  {
    FreshHandledIff(p.s, table, raw, p.addr, p.clock(i));
    OutcomeServed(p, table, i, raw, rest);
  }

  // A repeated request, by what its entry holds: only one that is still open stops the
  // connection, where its Lookup waits.
  lemma RepeatServed(p: Peer, table: Option<Table>, i: nat, raw: bytes, rest: bytes)
    requires TableOk(table) && WellFramed(raw) && IsRepeat(p.s, table, raw, p.addr, p.clock(i))
    ensures (var e := EntryFor(p.s, table, raw, p.addr, p.clock(i));
             if e.closes == 0 then ClosedBy(p, table, i, raw, rest)
             else match e.reply
                  case None => GoesOnWith(p, table, i, raw, rest, [])
                  case Some(out) => GoesOnWith(p, table, i, raw, rest, if p.writable(i) then [out] else []))
  {
    RepeatHandledIff(p.s, table, raw, p.addr, p.clock(i));
    OutcomeServed(p, table, i, raw, rest);
  }

  // ----- all turns -----

  // The connection, and whether a turn is answered at its time, as functions.
  type Serve = (Option<Table>, nat, bytes) -> seq<bytes>
  type Test = (Option<Table>, nat, Turn) -> bool

  function Serving(react: Reaction, writable: nat -> bool): Serve {
    (table: Option<Table>, i: nat, stream: bytes) => Served(react, writable, table, i, stream)
  }

  lemma FromServing(react: Reaction, writable: nat -> bool, table: Option<Table>, i: nat, stream: bytes,
                    replies: seq<bytes>, next: Option<Table>, j: nat, tail: bytes)
    requires Serving(react, writable)(table, i, stream) == replies + Serving(react, writable)(next, j, tail)
    ensures Served(react, writable, table, i, stream) == replies + Served(react, writable, next, j, tail)
  {
  }

  ghost predicate AnswersFresh(serve: Serve, react: Reaction, unseen: Test) {
    forall table, i: nat, t, rest :: unseen(table, i, t) ==>
      serve(table, i, t.p + rest) == Said(t) + serve(react(table, t.p, i).1, i + 1, rest)
  }

  // `tracked`: only requests with different Identifiers leave each other fresh.
  ghost predicate KeepsFresh(react: Reaction, unseen: Test, tracked: bool) {
    forall table, i: nat, t, j: nat, other ::
      unseen(table, i, t) && unseen(table, j, other) && (tracked ==> t.m.id != other.m.id) ==>
        unseen(react(table, t.p, i).1, j, other)
  }

  predicate AllUnseen(unseen: Test, table: Option<Table>, i: nat, ts: seq<Turn>)
    decreases |ts|
  {
    ts == [] || (unseen(table, i, ts[0]) && AllUnseen(unseen, table, i + 1, ts[1..]))
  }

  lemma {:induction false} EachUnseen(unseen: Test, table: Option<Table>, i: nat, ts: seq<Turn>)
    requires forall k: nat :: k < |ts| ==> unseen(table, i + k, ts[k])
    ensures AllUnseen(unseen, table, i, ts)
    decreases |ts|
  {
    if ts != [] {
      assert unseen(table, i + 0, ts[0]);
      forall k: nat | k < |ts[1..]|
        ensures unseen(table, i + 1 + k, ts[1..][k])
      {
        assert unseen(table, i + (k + 1), ts[k + 1]);
      }
      EachUnseen(unseen, table, i + 1, ts[1..]);
    }
  }

  lemma {:induction false} StillUnseen(react: Reaction, unseen: Test, tracked: bool, table: Option<Table>, i: nat, t: Turn,
                                       j: nat, ts: seq<Turn>)
    requires KeepsFresh(react, unseen, tracked) && unseen(table, i, t) && AllUnseen(unseen, table, j, ts)
    requires tracked ==> forall k :: 0 <= k < |ts| ==> ts[k].m.id != t.m.id
    ensures AllUnseen(unseen, react(table, t.p, i).1, j, ts)
    decreases |ts|
  {
    if ts != [] {
      assert tracked ==> ts[0].m.id != t.m.id;
      StillUnseen(react, unseen, tracked, table, i, t, j + 1, ts[1..]);
    }
  }

  // The table behind all turns.
  function Behind(react: Reaction, table: Option<Table>, i: nat, ts: seq<Turn>): Option<Table>
    decreases |ts|
  {
    if ts == [] then table else Behind(react, react(table, ts[0].p, i).1, i + 1, ts[1..])
  }

  lemma {:induction false} InOrder(serve: Serve, react: Reaction, unseen: Test, tracked: bool, table: Option<Table>, i: nat,
                                   ts: seq<Turn>, tail: bytes)
    requires AnswersFresh(serve, react, unseen) && KeepsFresh(react, unseen, tracked)
    requires AllUnseen(unseen, table, i, ts) && (tracked ==> Different(ts))
    ensures serve(table, i, Concat(Requests(ts)) + tail)
         == Replies(ts) + serve(Behind(react, table, i, ts), i + |ts|, tail)
    decreases |ts|
  {
    if ts == [] {
      assert Concat(Requests(ts)) + tail == tail;
    } else {
      var t, more := ts[0], ts[1..];
      var rest, end := Concat(Requests(more)), serve(Behind(react, table, i, ts), i + |ts|, tail);
      StillUnseen(react, unseen, tracked, table, i, t, i + 1, more);
      calc {
        serve(table, i, Concat(Requests(ts)) + tail);
        { assert Requests(ts)[1..] == Requests(more); Assoc(t.p, rest, tail); }
        serve(table, i, t.p + (rest + tail));
        Said(t) + serve(react(table, t.p, i).1, i + 1, rest + tail);
        { InOrder(serve, react, unseen, tracked, react(table, t.p, i).1, i + 1, more, tail); }
        Said(t) + (Replies(more) + end);
        { Assoc(Said(t), Replies(more), end); }
        Replies(ts) + end;
      }
    }
  }

  lemma ServedInOrder(react: Reaction, writable: nat -> bool, unseen: Test, tracked: bool, table: Option<Table>, i: nat,
                      ts: seq<Turn>, tail: bytes)
    requires AnswersFresh(Serving(react, writable), react, unseen) && KeepsFresh(react, unseen, tracked)
    requires AllUnseen(unseen, table, i, ts) && (tracked ==> Different(ts))
    ensures Served(react, writable, table, i, Concat(Requests(ts)) + tail)
         == Replies(ts) + Served(react, writable, Behind(react, table, i, ts), i + |ts|, tail)
  {
    InOrder(Serving(react, writable), react, unseen, tracked, table, i, ts, tail);
    FromServing(react, writable, table, i, Concat(Requests(ts)) + tail, Replies(ts), Behind(react, table, i, ts), i + |ts|, tail);
  }

  ghost function Testing(p: Peer, tracked: bool): Test {
    (table: Option<Table>, i: nat, t: Turn) =>
      table.Some? == tracked && Honest(p.s, t) && Fresh(p, table, i, t) && (t.Spoken? ==> p.writable(i))
  }

  lemma TestingMeans(p: Peer, tracked: bool, table: Option<Table>, i: nat, t: Turn)
    ensures Testing(p, tracked)(table, i, t)
       <==> table.Some? == tracked && Honest(p.s, t) && Fresh(p, table, i, t) && (t.Spoken? ==> p.writable(i))
  {
  }

  // The request of a turn arrives whole, and its reply, if there is one, is written.
  ghost predicate AnswersAt(react: Reaction, writable: nat -> bool, table: Option<Table>, i: nat, t: Turn) {
    WellFramed(t.p)
    && match t
       case Spoken(_, _, _, _, out) => react(table, t.p, i).0 == Answered(out) && writable(i)
       case Unspoken(_, _) => react(table, t.p, i).0 == Quiet
  }

  lemma ReactsToTurn(p: Peer, tracked: bool, table: Option<Table>, i: nat, t: Turn)
    requires Testing(p, tracked)(table, i, t)
    ensures TableOk(table) && AnswersAt(ReactionOf(p), p.writable, table, i, t)
  {
    TestingMeans(p, tracked, table, i, t);
    TurnRead(p.s, t);
    TurnHandled(p, table, i, t);
    ReactionMeans(p, table, t.p, i);
  }

  ghost predicate ReactsFresh(react: Reaction, writable: nat -> bool, unseen: Test) {
    forall table, i: nat, t :: unseen(table, i, t) ==> AnswersAt(react, writable, table, i, t)
  }

  lemma AnswersTurn(react: Reaction, writable: nat -> bool, table: Option<Table>, i: nat, t: Turn, rest: bytes)
    requires AnswersAt(react, writable, table, i, t)
    ensures Serving(react, writable)(table, i, t.p + rest)
         == Said(t) + Serving(react, writable)(react(table, t.p, i).1, i + 1, rest)
  {
    if t.Spoken? {
      ServedWrites(react, writable, table, i, t.p, rest);
    } else {
      ServedQuiet(react, writable, table, i, t.p, rest);
    }
  }

  lemma AnswersAll(serve: Serve, react: Reaction, writable: nat -> bool, unseen: Test)
    requires serve == Serving(react, writable) && ReactsFresh(react, writable, unseen)
    ensures AnswersFresh(serve, react, unseen)
  {
    forall table, i: nat, t, rest | unseen(table, i, t)
      ensures serve(table, i, t.p + rest) == Said(t) + serve(react(table, t.p, i).1, i + 1, rest)
    {
      AnswersTurn(react, writable, table, i, t, rest);
    }
  }

  lemma HonestAnswered(p: Peer, tracked: bool, react: Reaction, table: Option<Table>, i: nat, t: Turn)
    requires react == ReactionOf(p) && Testing(p, tracked)(table, i, t)
    ensures AnswersAt(react, p.writable, table, i, t)
  {
    ReactsToTurn(p, tracked, table, i, t);
  }

  lemma ReactsHonest(p: Peer, tracked: bool, react: Reaction, unseen: Test)
    requires react == ReactionOf(p) && unseen == Testing(p, tracked)
    ensures ReactsFresh(react, p.writable, unseen)
  {
    forall table, i: nat, t | unseen(table, i, t)
      ensures AnswersAt(react, p.writable, table, i, t)
    {
      HonestAnswered(p, tracked, react, table, i, t);
    }
  }

  lemma AnswersHonest(p: Peer, tracked: bool)
    ensures AnswersFresh(Serving(ReactionOf(p), p.writable), ReactionOf(p), Testing(p, tracked))
  {
    ReactsHonest(p, tracked, ReactionOf(p), Testing(p, tracked));
    AnswersAll(Serving(ReactionOf(p), p.writable), ReactionOf(p), p.writable, Testing(p, tracked));
  }

  lemma KeepsTurn(p: Peer, tracked: bool, table: Option<Table>, i: nat, t: Turn, j: nat, other: Turn)
    requires Testing(p, tracked)(table, i, t) && Testing(p, tracked)(table, j, other) && (tracked ==> t.m.id != other.m.id)
    ensures Testing(p, tracked)(ReactionOf(p)(table, t.p, i).1, j, other)
  {
    TestingMeans(p, tracked, table, i, t);
    TestingMeans(p, tracked, table, j, other);
    if tracked {
      OthersStayFresh(p, table, i, t, j, other);
    }
    ReactionMeans(p, table, t.p, i);
    TestingMeans(p, tracked, Handle(p.s, table, t.p, p.addr, p.clock(i)).1, j, other);
  }

  lemma KeepsHonest(p: Peer, tracked: bool)
    ensures KeepsFresh(ReactionOf(p), Testing(p, tracked), tracked)
  {
    forall table, i: nat, t, j: nat, other |
      Testing(p, tracked)(table, i, t) && Testing(p, tracked)(table, j, other) && (tracked ==> t.m.id != other.m.id)
      ensures Testing(p, tracked)(ReactionOf(p)(table, t.p, i).1, j, other)
    {
      KeepsTurn(p, tracked, table, i, t, j, other);
    }
  }

  lemma AllTested(p: Peer, table: Option<Table>, i: nat, ts: seq<Turn>)
    requires AllHonest(p.s, ts) && Distinct(p, table, i, ts)
    ensures AllUnseen(Testing(p, table.Some?), table, i, ts)
  {
    var unseen := Testing(p, table.Some?);
    forall k: nat | k < |ts|
      ensures unseen(table, i + k, ts[k])
    {
      TestingMeans(p, table.Some?, table, i + k, ts[k]);
    }
    EachUnseen(unseen, table, i, ts);
  }

  // Honest requests in front of any tail are answered in order; then the tail is served
  // with the table they leave.
  lemma ServedAll(p: Peer, table: Option<Table>, i: nat, ts: seq<Turn>, tail: bytes)
    requires AllHonest(p.s, ts) && Distinct(p, table, i, ts)
    ensures Served(ReactionOf(p), p.writable, table, i, Concat(Requests(ts)) + tail)
         == Replies(ts) + Served(ReactionOf(p), p.writable, Behind(ReactionOf(p), table, i, ts), i + |ts|, tail)
  {
    AnswersHonest(p, table.Some?);
    KeepsHonest(p, table.Some?);
    AllTested(p, table, i, ts);
    ServedInOrder(ReactionOf(p), p.writable, Testing(p, table.Some?), table.Some?, table, i, ts, tail);
  }

  lemma {:induction false} RepliesFramed(s: Service, ts: seq<Turn>)
    requires AllHonest(s, ts)
    ensures AllWellFramed(Replies(ts))
  {
    if ts != [] {
      RepliesFramed(s, ts[1..]);
      if ts[0].Spoken? {
        ReplyFramed(s, ts[0]);
      }
    }
  }

  // Any number of requests written back to back on one connection, in any pieces, are
  // answered one by one and in order, those the handler is silent about excepted; the
  // answers are read back from the stream as they were written, and each verifies
  // against the request it belongs to. With duplicate detection this holds for different
  // Identifiers.
  lemma PipelinedConversation(p: Peer, table: Option<Table>, ts: seq<Turn>)
    requires AllHonest(p.s, ts) && Distinct(p, table, 0, ts)
    ensures Served(ReactionOf(p), p.writable, table, 0, Concat(Requests(ts))) == Replies(ts)
    ensures ReadAll(Concat(Replies(ts))) == (Replies(ts), ConnClosed, [])
    ensures forall i :: 0 <= i < |ts| && ts[i].Spoken? ==> Accepted(p.s, ts[i])
  {
    ServedAll(p, table, 0, ts, []);
    assert Concat(Requests(ts)) + [] == Concat(Requests(ts)) && Replies(ts) + [] == Replies(ts);
    forall i | 0 <= i < |ts| && ts[i].Spoken?
      ensures Accepted(p.s, ts[i])
    {
      TurnAccepted(p.s, ts[i]);
    }
    RepliesFramed(p.s, ts);
    StreamReadBackIff(Replies(ts));
  }

  // ----- an Identifier used again -----

  // Two requests with one Identifier, the second within ttl of the first, whose reply was
  // written.
  ghost predicate Reuses(p: Peer, t: Table, i: nat, turn: Turn, again: bytes) {
    && Honest(p.s, turn) && turn.Spoken? && Fresh(p, Some(t), i, turn) && p.writable(i)
    && p.clock(i + 1) < p.clock(i) + t.ttl
    && WellFramed(again) && Unmarshaled(p.s.md5, again, p.s.secret).Ok?
    && Unmarshaled(p.s.md5, again, p.s.secret).value.id == turn.m.id
  }

  lemma ReactsAgain(p: Peer, t: Table, i: nat, turn: Turn, again: bytes)
    requires Reuses(p, t, i, turn, again)
    ensures ReactionOf(p)(Some(t), turn.p, i).0 == Answered(turn.out)
    ensures ReactionOf(p)(ReactionOf(p)(Some(t), turn.p, i).1, again, i + 1).0 == Cached(turn.out)
  {
    TurnRead(p.s, turn);
    TurnIsFresh(p, Some(t), i, turn);
    TurnHandled(p, Some(t), i, turn);
    ReactionMeans(p, Some(t), turn.p, i);
    AnsweredFromEntry(p.s, p.s, t, turn.p, again, p.addr, p.clock(i), p.clock(i + 1));
    ReactionMeans(p, Handle(p.s, Some(t), turn.p, p.addr, p.clock(i)).1, again, i + 1);
  }

  // One duplicate in front of the rest of a stream.
  lemma ServedFromCache(react: Reaction, writable: nat -> bool, table: Option<Table>, i: nat, raw: bytes, rest: bytes)
    requires WellFramed(raw) && react(table, raw, i).0.Cached?
    ensures Served(react, writable, table, i, raw + rest)
         == Wrote(writable(i), react(table, raw, i).0.out) + Served(react, writable, react(table, raw, i).1, i + 1, rest)
  {
    ReadNextIff(raw + rest, raw, rest);
  }

  lemma TwoWrites(react: Reaction, writable: nat -> bool, table: Option<Table>, i: nat, a: bytes, b: bytes, rest: bytes, out: bytes)
    requires WellFramed(a) && WellFramed(b) && writable(i)
    requires react(table, a, i).0 == Answered(out) && react(react(table, a, i).1, b, i + 1).0 == Cached(out)
    ensures Served(react, writable, table, i, a + (b + rest))
         == [out] + Wrote(writable(i + 1), out) + Served(react, writable, react(react(table, a, i).1, b, i + 1).1, i + 2, rest)
  {
    ServedWrites(react, writable, table, i, a, b + rest);
    ServedFromCache(react, writable, react(table, a, i).1, i + 1, b, rest);
    Assoc([out], Wrote(writable(i + 1), out), Served(react, writable, react(react(table, a, i).1, b, i + 1).1, i + 2, rest));
  }

  // The table knows only address and Identifier: whether the second request repeats the
  // first or is a different one, it is answered with the reply to the first, and what
  // follows on the connection is served as usual, even if that second write fails.
  lemma ReusedIdentifier(p: Peer, t: Table, i: nat, turn: Turn, again: bytes, rest: bytes) returns (after: Option<Table>)
    requires Reuses(p, t, i, turn, again)
    ensures Served(ReactionOf(p), p.writable, Some(t), i, turn.p + (again + rest))
         == [turn.out] + Wrote(p.writable(i + 1), turn.out) + Served(ReactionOf(p), p.writable, after, i + 2, rest)
  {
    var react := ReactionOf(p);
    after := react(react(Some(t), turn.p, i).1, again, i + 1).1;
    TurnRead(p.s, turn);
    ReactsAgain(p, t, i, turn, again);
    TwoWrites(react, p.writable, Some(t), i, turn.p, again, rest, turn.out);
  }

  // After a failed write of a fresh reply nothing that follows is served.
  lemma FailedWriteCloses(react: Reaction, writable: nat -> bool, table: Option<Table>, i: nat, raw: bytes, rest: bytes)
    requires WellFramed(raw) && !writable(i) && react(table, raw, i).0.Answered?
    ensures Served(react, writable, table, i, raw + rest) == []
  {
    ReadNextIff(raw + rest, raw, rest);
  }
}
