// protocol/client.go, exchangeWithRetransmit: one request against an arbitrary
// transport and arbitrary cancellation.
module Retransmission {
  import opened Bytes
  import opened Wire
  import opened Attributes
  import opened Walks
  import opened Packet
  import opened PacketCodec
  import opened Exchange
  import opened Backoff

  datatype NetError = Canceled | Failed(reason: nat)

  datatype Answer = Received(raw: bytes) | Lost(error: NetError)

  // What the world does around one attempt: it may end the pause in front of it, it
  // answers, and the caller's context may be over when it has answered.
  datatype Turn = Turn(pauseEnds: Option<NetError>, answer: Answer, contextDone: Option<NetError>)

  datatype ClientError = Net(error: NetError) | Refused(reason: Error) | NoResponse | UnexpectedReply

  datatype Outcome = Replied(packet: Message) | Failure(reason: ClientError)

  datatype Event = Waited(delay: int64) | Sent(raw: bytes, limit: Option<int64>)

  // Everything one exchange depends on.
  datatype Trial = Trial(md5: Hash, hmac: Mac, secret: bytes, raw: bytes, id: byte, auth: Block,
                         policy: RetransmitPolicy, turns: nat -> Turn)

  // ----- what one attempt leads to -----

  datatype Verdict = Stop(outcome: Outcome, sent: bool) | Retry(reason: ClientError)

  function Judge(t: Trial, attempt: nat): Verdict {
    var turn := t.turns(attempt);
    if attempt > 0 && turn.pauseEnds.Some? then Stop(Failure(Net(turn.pauseEnds.value)), false)
    else
      match turn.answer
      case Lost(e) =>
        if e.Canceled? then Stop(Failure(Net(e)), true)
        else if turn.contextDone.Some? then Stop(Failure(Net(turn.contextDone.value)), true)
        else Retry(Net(e))
      case Received(reply) =>
        match VerifyResponse(t.md5, t.hmac, reply, t.id, t.auth, t.secret)
        case Ok(m) => Stop(Replied(m), true)
        case Err(e) => Retry(Refused(e))
  }

  // The per-attempt deadline: none for the last attempt.
  function Limit(p: RetransmitPolicy, attempt: nat): Option<int64> {
    if attempt < Attempts(p) - 1 && NextDelay(p, attempt) > 0 then Some(NextDelay(p, attempt)) else None
  }

  function Pause(p: RetransmitPolicy, attempt: nat): seq<Event> {
    if attempt > 0 then [Waited(NextDelay(p, attempt - 1))] else []
  }

  // The events of the first `n` attempts, all of which sent something.
  function LogOf(t: Trial, n: nat): seq<Event> {
    if n == 0 then []
    else LogOf(t, n - 1) + Pause(t.policy, n - 1) + [Sent(t.raw, Limit(t.policy, n - 1))]
  }

  // The first attempt that stops, or all of them.
  function FirstStop(t: Trial, from: nat, n: nat): (k: nat)
    requires from <= n
    ensures from <= k <= n
    ensures forall i: nat :: from <= i < k ==> Judge(t, i).Retry?
    ensures k < n ==> Judge(t, k).Stop?
    decreases n - from
  {
    if from == n || Judge(t, from).Stop? then from else FirstStop(t, from + 1, n)
  }

  function LastError(t: Trial): ClientError {
    match Judge(t, Attempts(t.policy) - 1)
    case Retry(e) => e
    case Stop(_, _) => NoResponse
  }

  function ExchangeOutcome(t: Trial): Outcome {
    var n := Attempts(t.policy);
    var k := FirstStop(t, 0, n);
    if k < n then Judge(t, k).outcome else Failure(LastError(t))
  }

  function ExchangeLog(t: Trial): seq<Event> {
    var n := Attempts(t.policy);
    var k := FirstStop(t, 0, n);
    if k == n then LogOf(t, n)
    else if Judge(t, k).sent then LogOf(t, k + 1)
    else LogOf(t, k) + Pause(t.policy, k)
  }

  // ----- the loop -----

  class Transport {
    var log: seq<Event>
    const turns: nat -> Turn

    constructor (turns: nat -> Turn)
      ensures log == [] && this.turns == turns
    {
      log := [];
      this.turns := turns;
    }

    method Wait(delay: int64, attempt: nat) returns (ended: Option<NetError>)
      modifies this
      ensures log == old(log) + [Waited(delay)] && ended == turns(attempt).pauseEnds
    {
      log := log + [Waited(delay)];
      ended := turns(attempt).pauseEnds;
    }

    method Exchange(raw: bytes, limit: Option<int64>, attempt: nat) returns (answer: Answer, contextDone: Option<NetError>)
      modifies this
      ensures log == old(log) + [Sent(raw, limit)]
      ensures answer == turns(attempt).answer && contextDone == turns(attempt).contextDone
    {
      log := log + [Sent(raw, limit)];
      answer, contextDone := turns(attempt).answer, turns(attempt).contextDone;
    }
  }

  method ExchangeWithRetransmit(t: Trial, transport: Transport) returns (r: Outcome)
    requires transport.log == [] && transport.turns == t.turns
    modifies transport
    ensures r == ExchangeOutcome(t)
    ensures transport.log == ExchangeLog(t)
  {
    var attempts := Attempts(t.policy);
    var lastErr: Option<ClientError> := None;
    for attempt := 0 to attempts
      invariant forall i: nat :: i < attempt ==> Judge(t, i).Retry?
      invariant transport.log == LogOf(t, attempt)
      invariant attempt > 0 ==> lastErr.Some? && Judge(t, attempt - 1) == Retry(lastErr.value)
    {
      if attempt > 0 {
        var delay := NextDelay(t.policy, attempt - 1);
        var ended := transport.Wait(delay, attempt);
        if ended.Some? {
          Stopped(t, attempt);
          return Failure(Net(ended.value));
        }
      }
      var limit: Option<int64> := None;
      if attempt < attempts - 1 {
        var perAttempt := NextDelay(t.policy, attempt);
        if perAttempt > 0 {
          limit := Some(perAttempt);
        }
      }
      var answer, contextDone := transport.Exchange(t.raw, limit, attempt);
      assert transport.log == LogOf(t, attempt + 1);
      if answer.Lost? {
        if answer.error.Canceled? {
          Stopped(t, attempt);
          return Failure(Net(answer.error));
        }
        if contextDone.Some? {
          Stopped(t, attempt);
          return Failure(Net(contextDone.value));
        }
        lastErr := Some(Net(answer.error));
      } else {
        var v := Verify(t.md5, t.hmac, answer.raw, t.id, t.auth, t.secret);
        if v.Ok? {
          Stopped(t, attempt);
          return Replied(v.value);
        }
        lastErr := Some(Refused(v.error));
      }
    }
    if lastErr.Some? {
      return Failure(lastErr.value);
    }
    return Failure(NoResponse);
  }

  lemma Stopped(t: Trial, k: nat)
    requires k < Attempts(t.policy) && Judge(t, k).Stop?
    requires forall i: nat :: i < k ==> Judge(t, i).Retry?
    ensures FirstStop(t, 0, Attempts(t.policy)) == k
  {
  }

  // ----- which attempts leave the exchange going on -----

  // The pause in front was not interrupted, and the attempt brought no acceptable reply, no
  // cancellation and no end of the caller's context.
  predicate Passes(t: Trial, k: nat) {
    (k > 0 ==> t.turns(k).pauseEnds.None?)
    && match t.turns(k).answer
       case Lost(e) => !e.Canceled? && t.turns(k).contextDone.None?
       case Received(reply) => VerifyResponse(t.md5, t.hmac, reply, t.id, t.auth, t.secret).Err?
  }

  predicate AllPass(t: Trial, n: nat) {
    forall i: nat :: i < n ==> Passes(t, i)
  }

  lemma JudgeIff(t: Trial, k: nat)
    ensures Judge(t, k).Retry? <==> Passes(t, k)
    ensures Judge(t, k).Stop? && !Judge(t, k).sent <==> k > 0 && t.turns(k).pauseEnds.Some?
  {
  }

  // The exchange stops at attempt k, or after the last one.
  lemma StopsAt(t: Trial, k: nat)
    requires AllPass(t, k) && k <= Attempts(t.policy) && (k < Attempts(t.policy) ==> !Passes(t, k))
    ensures FirstStop(t, 0, Attempts(t.policy)) == k
  {
    forall i: nat
      ensures Judge(t, i).Retry? <==> Passes(t, i)
    {
      JudgeIff(t, i);
    }
  }

  lemma NotBefore(t: Trial, s: nat, k: nat)
    requires AllPass(t, k) && k <= Attempts(t.policy) && (s < Attempts(t.policy) ==> !Passes(t, s))
    ensures s >= k
  {
  }

  lemma StopsSomewhere(t: Trial) returns (k: nat)
    ensures k == FirstStop(t, 0, Attempts(t.policy)) <= Attempts(t.policy)
    ensures AllPass(t, k) && (k < Attempts(t.policy) ==> !Passes(t, k))
  {
    k := FirstStop(t, 0, Attempts(t.policy));
    forall i: nat
      ensures Judge(t, i).Retry? <==> Passes(t, i)
    {
      JudgeIff(t, i);
    }
  }

  // ----- what every exchange keeps -----

  function Transmissions(log: seq<Event>): seq<bytes> {
    if log == [] then []
    else Transmissions(log[..|log| - 1]) + match log[|log| - 1] { case Sent(raw, _) => [raw] case Waited(_) => [] }
  }

  function Copies(raw: bytes, n: nat): (c: seq<bytes>)
    ensures |c| == n && forall i :: 0 <= i < n ==> c[i] == raw
  {
    seq(n, _ => raw)
  }

  lemma TransmissionsSnoc(log: seq<Event>, e: Event)
    ensures Transmissions(log + [e]) == Transmissions(log) + if e.Sent? then [e.raw] else []
  {
    assert (log + [e])[..|log|] == log;
  }

  lemma {:induction false} LogTransmissions(t: Trial, n: nat)
    ensures Transmissions(LogOf(t, n)) == Copies(t.raw, n)
    ensures Transmissions(LogOf(t, n) + Pause(t.policy, n)) == Copies(t.raw, n)
  {
    if n > 0 {
      LogTransmissions(t, n - 1);
      TransmissionsSnoc(LogOf(t, n - 1) + Pause(t.policy, n - 1), Sent(t.raw, Limit(t.policy, n - 1)));
      TransmissionsSnoc(LogOf(t, n), Waited(NextDelay(t.policy, n - 1)));
      assert Copies(t.raw, n) == Copies(t.raw, n - 1) + [t.raw];
    } else {
      assert LogOf(t, 0) + Pause(t.policy, 0) == [];
    }
  }

  // How often the request is sent.
  function SendCount(t: Trial): (n: nat)
    ensures n <= Attempts(t.policy)
  {
    var k := FirstStop(t, 0, Attempts(t.policy));
    if k < Attempts(t.policy) && Judge(t, k).sent then k + 1 else k
  }

  lemma ExchangeSends(t: Trial)
    ensures Transmissions(ExchangeLog(t)) == Copies(t.raw, SendCount(t))
  {
    LogTransmissions(t, SendCount(t));
  }

  // Every transmission is the identical octets, and there are at most Attempts of them.
  lemma SendsIdenticalBytes(t: Trial)
    ensures |Transmissions(ExchangeLog(t))| <= Attempts(t.policy)
    ensures forall sent :: sent in Transmissions(ExchangeLog(t)) ==> sent == t.raw
  {
    ExchangeSends(t);
  }

  predicate Accepts(t: Trial, k: nat, m: Message) {
    t.turns(k).answer.Received?
    && VerifyResponse(t.md5, t.hmac, t.turns(k).answer.raw, t.id, t.auth, t.secret) == Ok(m)
  }

  // A packet is returned exactly when it is the first reply that verifies and no
  // attempt up to it was interrupted.
  lemma RepliedIff(t: Trial, m: Message)
    ensures ExchangeOutcome(t) == Replied(m)
       <==> exists k: nat ::
              k < Attempts(t.policy) && Accepts(t, k, m) && (k > 0 ==> t.turns(k).pauseEnds.None?) && AllPass(t, k)
  {
    var n := Attempts(t.policy);
    var s := StopsSomewhere(t);
    if ExchangeOutcome(t) == Replied(m) {
      assert s < n && Accepts(t, s, m);
    }
    if k: nat :| k < n && Accepts(t, k, m) && (k > 0 ==> t.turns(k).pauseEnds.None?) && AllPass(t, k) {
      assert Judge(t, k) == Stop(Replied(m), true);
      StopsAt(t, k);
    }
  }

  // How attempt `k` ends the exchange with the network error `e`: in the pause in front of
  // it, by cancellation, because the caller's context is over, or as the last one lost.
  predicate EndsWith(t: Trial, k: nat, e: NetError) {
    var turn := t.turns(k);
    if k > 0 && turn.pauseEnds.Some? then turn.pauseEnds == Some(e)
    else turn.answer.Lost?
         && if turn.answer.error.Canceled? || (turn.contextDone.None? && k + 1 == Attempts(t.policy)) then turn.answer.error == e
            else turn.contextDone == Some(e)
  }

  lemma NetFailureIff(t: Trial, e: NetError)
    ensures ExchangeOutcome(t) == Failure(Net(e))
       <==> exists k: nat :: k < Attempts(t.policy) && AllPass(t, k) && EndsWith(t, k, e)
  {
    var n := Attempts(t.policy);
    var s := StopsSomewhere(t);
    if ExchangeOutcome(t) == Failure(Net(e)) {
      var k := if s < n then s else n - 1;
      assert AllPass(t, k) && EndsWith(t, k, e);
    }
    if k: nat :| k < n && AllPass(t, k) && EndsWith(t, k, e) {
      if Passes(t, k) {
        assert k == n - 1 && AllPass(t, n);
        StopsAt(t, n);
      } else {
        StopsAt(t, k);
      }
    }
  }

  // A refusal is returned exactly when all attempts pass and the last one brought it.
  lemma RefusedIff(t: Trial, e: Error)
    ensures ExchangeOutcome(t) == Failure(Refused(e))
       <==> (var last := Attempts(t.policy) - 1;
             AllPass(t, last + 1) && t.turns(last).answer.Received?
             && VerifyResponse(t.md5, t.hmac, t.turns(last).answer.raw, t.id, t.auth, t.secret) == Err(e))
  {
    var n := Attempts(t.policy);
    var s := StopsSomewhere(t);
    assert s == n ==> AllPass(t, n);
    if AllPass(t, n) {
      StopsAt(t, n);
    }
  }

  lemma RepliedId(t: Trial, m: Message)
    requires ExchangeOutcome(t) == Replied(m)
    ensures m.id == t.id
  {
    assert Accepts(t, FirstStop(t, 0, Attempts(t.policy)), m);
  }

  // Left alone and never answered acceptably, the client sends exactly Attempts times.
  lemma ExhaustedExchange(t: Trial)
    requires AllPass(t, Attempts(t.policy))
    ensures Transmissions(ExchangeLog(t)) == Copies(t.raw, Attempts(t.policy))
    ensures match t.turns(Attempts(t.policy) - 1).answer
            case Lost(e) => ExchangeOutcome(t) == Failure(Net(e))
            case Received(raw) =>
              VerifyResponse(t.md5, t.hmac, raw, t.id, t.auth, t.secret).Err?
              && ExchangeOutcome(t) == Failure(Refused(VerifyResponse(t.md5, t.hmac, raw, t.id, t.auth, t.secret).error))
  {
    var n := Attempts(t.policy);
    StopsAt(t, n);
    assert Passes(t, n - 1);
    LogTransmissions(t, n);
  }

  lemma SendsBeyond(t: Trial, k: nat)
    requires k < Attempts(t.policy) && AllPass(t, k + 1)
    ensures SendCount(t) > k + 1 <==> k + 1 < Attempts(t.policy) && t.turns(k + 1).pauseEnds.None?
  {
    var s := StopsSomewhere(t);
    NotBefore(t, s, k + 1);
    JudgeIff(t, s);
    JudgeIff(t, k + 1);
    if s > k + 1 {
      assert Passes(t, k + 1);
    }
  }

  // A reply that is refused uses up its attempt: the request is sent again exactly when
  // attempts are left and the pause is not interrupted. After the last one the refusal
  // is what the caller gets, whatever time is left.
  lemma RefusedReplyUsesAttempt(t: Trial, k: nat, e: Error)
    requires k < Attempts(t.policy) && (k > 0 ==> t.turns(k).pauseEnds.None?) && AllPass(t, k)
    requires t.turns(k).answer.Received?
    requires VerifyResponse(t.md5, t.hmac, t.turns(k).answer.raw, t.id, t.auth, t.secret) == Err(e)
    ensures |Transmissions(ExchangeLog(t))| > k + 1 <==> k + 1 < Attempts(t.policy) && t.turns(k + 1).pauseEnds.None?
    ensures k + 1 == Attempts(t.policy) ==> ExchangeOutcome(t) == Failure(Refused(e))
  {
    assert Passes(t, k);
    ExchangeSends(t);
    SendsBeyond(t, k);
    RefusedIff(t, e);
  }

  // The NoResponse error at the end of the loop is unreachable.
  lemma NoResponseUnreachable(t: Trial)
    ensures ExchangeOutcome(t) != Failure(NoResponse) && ExchangeOutcome(t) != Failure(UnexpectedReply)
  {
    var k := StopsSomewhere(t);
    JudgeIff(t, Attempts(t.policy) - 1);
  }

  // ----- the whole log -----

  // Transmissions stand at the even places and the pauses between them at the odd ones. A
  // transmission has the next delay as its deadline, except for the last attempt.
  predicate IsEvent(t: Trial, j: nat, e: Event) {
    var delay := NextDelay(t.policy, j / 2);
    if j % 2 == 0 then e == Sent(t.raw, if j / 2 + 1 < Attempts(t.policy) && delay > 0 then Some(delay) else None)
    else e == Waited(delay)
  }

  predicate EventsOk(t: Trial, log: seq<Event>) {
    forall j: nat :: j < |log| ==> IsEvent(t, j, log[j])
  }

  lemma EventsSnoc(t: Trial, log: seq<Event>, e: Event)
    requires EventsOk(t, log) && IsEvent(t, |log|, e)
    ensures EventsOk(t, log + [e])
  {
  }

  lemma {:induction false} LogOfEvents(t: Trial, n: nat)
    ensures EventsOk(t, LogOf(t, n)) && |LogOf(t, n)| == if n == 0 then 0 else 2 * n - 1
    ensures EventsOk(t, LogOf(t, n) + Pause(t.policy, n)) && |LogOf(t, n) + Pause(t.policy, n)| == 2 * n
  {
    if n == 0 {
      assert LogOf(t, 0) + Pause(t.policy, 0) == [];
    } else {
      LogOfEvents(t, n - 1);
      NextEvents(t, LogOf(t, n - 1) + Pause(t.policy, n - 1), n - 1);
    }
  }

  // One attempt more, and the pause behind it.
  lemma NextEvents(t: Trial, log: seq<Event>, k: nat)
    requires EventsOk(t, log) && |log| == 2 * k
    ensures EventsOk(t, log + [Sent(t.raw, Limit(t.policy, k))])
    ensures EventsOk(t, log + [Sent(t.raw, Limit(t.policy, k))] + Pause(t.policy, k + 1))
  {
    EventsSnoc(t, log, Sent(t.raw, Limit(t.policy, k)));
    EventsSnoc(t, log + [Sent(t.raw, Limit(t.policy, k))], Waited(NextDelay(t.policy, k)));
  }

  // Every event of the log, and how far it reaches: the pause in front of attempt k is
  // entered exactly when all attempts before it pass, and attempt k is transmitted exactly
  // when its pause, if there is one, is not interrupted either.
  lemma LogIff(t: Trial, k: nat)
    requires k < Attempts(t.policy)
    ensures EventsOk(t, ExchangeLog(t)) && |ExchangeLog(t)| < 2 * Attempts(t.policy)
    ensures |ExchangeLog(t)| > 2 * k <==> AllPass(t, k) && (k > 0 ==> t.turns(k).pauseEnds.None?)
    ensures k > 0 ==> (|ExchangeLog(t)| > 2 * k - 1 <==> AllPass(t, k))
  {
    var n := Attempts(t.policy);
    var s := StopsSomewhere(t);
    JudgeIff(t, s);
    LogOfEvents(t, s);
    LogOfEvents(t, s + 1);
    assert |ExchangeLog(t)| == if s == n || !Judge(t, s).sent then (if s == n then 2 * n - 1 else 2 * s) else 2 * s + 1;
    if AllPass(t, k) {
      NotBefore(t, s, k);
    }
    if s > k {
      assert Passes(t, k);
    }
  }

  // With a well-scaled policy: transmission k, unless it is the last one allowed, is given
  // Initial doubled k times, capped at Max, and so is the pause behind it.
  lemma DocumentedLog(t: Trial, j: nat, scale: nat)
    requires WellScaled(t.policy, scale) && t.policy.max > 0 && j < |ExchangeLog(t)|
    ensures (var e, due := ExchangeLog(t)[j], Min(t.policy.initial as int * Pow2(j / 2), t.policy.max as int);
             if j % 2 == 1 then e.Waited? && e.delay as int == due
             else e.Sent? && e.raw == t.raw
                  && if j / 2 + 1 == Attempts(t.policy) then e.limit == None
                     else e.limit.Some? && e.limit.value as int == due)
  {
    LogIff(t, 0);
    assert IsEvent(t, j, ExchangeLog(t)[j]);
    BackoffAsDocumented(t.policy, scale, j / 2);
  }

  function Min(a: int, b: int): int {
    if a < b then a else b
  }

  // The default policy against a server that never answers.
  lemma DefaultLog(t: Trial)
    requires t.policy == DEFAULT_POLICY
    requires forall k: nat :: k < 3 ==> t.turns(k) == Turn(None, Lost(Failed(0)), None)
    ensures ExchangeLog(t) == [Sent(t.raw, Some(2_000_000_000)), Waited(2_000_000_000),
                               Sent(t.raw, Some(4_000_000_000)), Waited(4_000_000_000), Sent(t.raw, None)]
    ensures ExchangeOutcome(t) == Failure(Net(Failed(0)))
  {
    var log := ExchangeLog(t);
    assert Attempts(t.policy) == 3 && AllPass(t, 3);
    LogIff(t, 2);
    DefaultBackoff(0);
    DefaultBackoff(1);
    assert IsEvent(t, 0, log[0]) && IsEvent(t, 1, log[1]) && IsEvent(t, 2, log[2]) && IsEvent(t, 3, log[3]) && IsEvent(t, 4, log[4]);
    ExhaustedExchange(t);
  }

  // ----- over a lossy network, with an honest server -----

  // The server's reply to this request, whichever attempt it answers.
  ghost predicate HonestReply(t: Trial, reply: Message, k: nat) {
    IsResponseCode(reply.code) && RoomForMA(reply.attrs) && reply.id == t.id && reply.auth == t.auth
    && t.turns(k).answer.Received?
    && Marshaled(t.md5, t.hmac, reply, t.secret) == Ok(t.turns(k).answer.raw)
  }

  // However many attempts are lost or answered with something that does not verify,
  // as long as one is answered by the server, its reply is what the caller gets.
  lemma LossyExchangeSucceeds(t: Trial, reply: Message, k: nat)
    requires k < Attempts(t.policy) && HonestReply(t, reply, k)
    requires k > 0 ==> t.turns(k).pauseEnds.None?
    requires AllPass(t, k)
    ensures exists mac, auth: Block ::
              ExchangeOutcome(t) == Replied(Message(reply.code, t.id, auth, SetMA(reply.attrs, mac)))
  {
    ReplyAccepted(t.md5, t.hmac, reply, t.secret);
    var mac, auth: Block :|
      VerifyResponse(t.md5, t.hmac, t.turns(k).answer.raw, t.id, t.auth, t.secret)
      == Ok(Message(reply.code, t.id, auth, SetMA(reply.attrs, mac)));
    var m := Message(reply.code, t.id, auth, SetMA(reply.attrs, mac));
    assert Accepts(t, k, m);
    RepliedIff(t, m);
  }

  // What the caller gets was sent: a returned packet re-marshals to one of the
  // answers, octet for octet.
  lemma RepliedWasMarshaled(t: Trial, m: Message) returns (k: nat)
    requires t.secret != [] && ExchangeOutcome(t) == Replied(m) && AtMostOneMA(m.attrs)
    ensures k < Attempts(t.policy) && t.turns(k).answer.Received? && |t.turns(k).answer.raw| >= 20
    ensures m.id == t.id && IsResponseCode(m.code)
    ensures (var raw := t.turns(k).answer.raw;
             Uint16(raw[2..4]) == |raw| ==> Marshaled(t.md5, t.hmac, m.(auth := t.auth), t.secret) == Ok(raw))
  {
    k := FirstStop(t, 0, Attempts(t.policy));
    var raw := t.turns(k).answer.raw;
    if Uint16(raw[2..4]) == |raw| {
      AcceptedIsMarshaled(t.md5, t.hmac, raw, t.id, t.auth, t.secret);
    }
  }
}
