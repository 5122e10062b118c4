// protocol/client.go: Authenticate, Account, SendCoA and SendDisconnect, which differ
// in their codes and in when they add a Message-Authenticator.
module Client {
  import opened Bytes
  import opened Wire
  import opened Crypto
  import opened Serialize
  import opened Attributes
  import opened Walks
  import opened Packet
  import opened PacketCodec
  import opened Exchange
  import opened Session
  import opened Identifiers
  import opened Retransmission
  import opened Backoff

  // CoA and Disconnect: the Client default, and what the request itself asks for.
  datatype Kind =
    | Access(eap: bool)
    | Account
    | CoA(byDefault: bool, asked: Option<bool>)
    | Disconnect(byDefault: bool, asked: Option<bool>)

  function RequestCode(k: Kind): byte {
    match k
    case Access(_) => ACCESS_REQUEST
    case Account => ACCOUNTING_REQUEST
    case CoA(_, _) => COA_REQUEST
    case Disconnect(_, _) => DISCONNECT_REQUEST
  }

  predicate IsExpectedReply(k: Kind, code: byte) {
    match k
    case Access(_) => code == ACCESS_ACCEPT || code == ACCESS_REJECT || code == ACCESS_CHALLENGE
    case Account => code == ACCOUNTING_RESPONSE
    case CoA(_, _) => code == COA_ACK || code == COA_NAK
    case Disconnect(_, _) => code == DISCONNECT_ACK || code == DISCONNECT_NAK
  }

  predicate ShouldInclude(byDefault: bool, asked: Option<bool>) {
    if asked.Some? then asked.value else byDefault
  }

  predicate WantsMA(k: Kind) {
    match k
    case Access(eap) => eap
    case Account => false
    case CoA(byDefault, asked) => ShouldInclude(byDefault, asked)
    case Disconnect(byDefault, asked) => ShouldInclude(byDefault, asked)
  }

  // The attributes of the request: an empty Message-Authenticator in front when one is
  // wanted and the caller has not brought one.
  function RequestAttributes(k: Kind, attrs: seq<Attribute>): seq<Attribute> {
    if WantsMA(k) && !HasMA(attrs) then [Attribute(MESSAGE_AUTHENTICATOR, Zeros(16))] + attrs else attrs
  }

  // What is asked for: a zero authenticator stands for a random one, here `fresh`.
  datatype Ask = Ask(kind: Kind, attrs: seq<Attribute>, auth: Block, random: Block)

  function RequestOf(a: Ask, id: byte): Message {
    var auth := if !a.kind.Access? then Zeros(16) else if a.auth == Zeros(16) then a.random else a.auth;
    Message(RequestCode(a.kind), id, auth, RequestAttributes(a.kind, a.attrs))
  }

  // The digests, the secret, the policy and the world of one call.
  datatype World = World(md5: Hash, hmac: Mac, secret: bytes, policy: RetransmitPolicy, turns: nat -> Turn)

  // The authenticator against which the reply is checked is octets 4 to 20 of what is
  // sent, except that an Access-Request keeps the one it was built with.
  function TrialOf(w: World, a: Ask, id: byte, raw: bytes): Trial
    requires |raw| >= 20
  {
    var auth := if a.kind.Access? then RequestOf(a, id).auth else raw[4..20];
    Trial(w.md5, w.hmac, w.secret, raw, id, auth, w.policy, w.turns)
  }

  function CallOutcome(w: World, a: Ask, id: byte): Outcome {
    match Marshaled(w.md5, w.hmac, RequestOf(a, id), w.secret)
    case Err(e) => Failure(Refused(e))
    case Ok(raw) =>
      match ExchangeOutcome(TrialOf(w, a, id, raw))
      case Failure(e) => Failure(e)
      case Replied(m) => if IsExpectedReply(a.kind, m.code) then Replied(m) else Failure(UnexpectedReply)
  }

  // What goes over the transport: nothing at all when the request does not marshal.
  function CallLog(w: World, a: Ask, id: byte): seq<Event> {
    match Marshaled(w.md5, w.hmac, RequestOf(a, id), w.secret)
    case Err(e) => []
    case Ok(raw) => ExchangeLog(TrialOf(w, a, id, raw))
  }

  // A panic in Marshal leaves the call as Failure(Refused(RuntimePanic)); the deferred
  // release runs all the same.
  //
  // One call: acquire, marshal, exchange, check the code; the Identifier goes back
  // to the pool on every way out.
  method Call(w: World, a: Ask, pool: IdentifierPool, transport: Transport, canceled: bool) returns (r: Outcome)
    requires pool.tokens != [] || canceled
    requires |pool.tokens| <= CAPACITY
    requires transport.log == [] && transport.turns == w.turns
    modifies pool, transport
    ensures canceled ==> (r == Failure(Refused(IdentifierExhausted)) && pool.tokens == old(pool.tokens)
                          && transport.log == [])
    ensures !canceled ==> (pool.tokens == old(pool.tokens)[1..] + [old(pool.tokens)[0]]
                           && r == CallOutcome(w, a, old(pool.tokens)[0])
                           && transport.log == CallLog(w, a, old(pool.tokens)[0]))
  {
    var acquired := pool.Acquire(canceled);
    if acquired.Err? {
      return Failure(Refused(acquired.error));
    }
    var id := acquired.value;
    r := WithIdentifier(w, a, id, transport);
    pool.Release(id);
  }

  method WithIdentifier(w: World, a: Ask, id: byte, transport: Transport) returns (r: Outcome)
    requires transport.log == [] && transport.turns == w.turns
    modifies transport
    ensures r == CallOutcome(w, a, id)
    ensures transport.log == CallLog(w, a, id)
  {
    var present := HasMALoop(a.attrs);
    var attrs := a.attrs;
    if WantsMA(a.kind) && !present {
      attrs := [Attribute(MESSAGE_AUTHENTICATOR, Zeros(16))] + attrs;
    }
    var pkt := new PacketBuffer();
    var request := RequestOf(a, id);
    pkt.code, pkt.id, pkt.auth, pkt.attrs := RequestCode(a.kind), id, request.auth, attrs;
    var raw := pkt.Marshal(w.md5, w.hmac, w.secret);
    if raw.Err? {
      return Failure(Refused(raw.error));
    }
    var t := TrialOf(w, a, id, raw.value);
    var reply := ExchangeWithRetransmit(t, transport);
    if reply.Replied? && !IsExpectedReply(a.kind, reply.packet.code) {
      return Failure(UnexpectedReply);
    }
    return reply;
  }

  // ----- what the calls promise -----

  // When a Message-Authenticator is added: for EAP, and for a CoA or Disconnect request
  // that asks for one, or leaves it to a Client that does.
  ghost predicate Signs(k: Kind) {
    || k == Access(true)
    || (exists b :: k == CoA(b, Some(true)) || k == Disconnect(b, Some(true)))
    || k == CoA(true, None) || k == Disconnect(true, None)
  }

  lemma SignsIff(k: Kind)
    ensures WantsMA(k) <==> Signs(k)
  {
    if k.CoA? {
      assert k == CoA(k.byDefault, k.asked);
    }
    if k.Disconnect? {
      assert k == Disconnect(k.byDefault, k.asked);
    }
  }

  // How many attributes are added in front.
  ghost function Added(k: Kind, attrs: seq<Attribute>): nat {
    if Signs(k) && !HasMA(attrs) then 1 else 0
  }

  // The request carries a Message-Authenticator exactly when one is wanted or was
  // brought, never a second one, and an added one has the standard size.
  lemma RequestMAIff(k: Kind, attrs: seq<Attribute>)
    ensures (var ws := RequestAttributes(k, attrs);
             (HasMA(ws) <==> Signs(k) || HasMA(attrs))
             && (AtMostOneMA(ws) <==> AtMostOneMA(attrs))
             && (StandardMA(ws) <==> StandardMA(attrs)) && (RoomForMA(ws) <==> RoomForMA(attrs))
             && |ws| == Added(k, attrs) + |attrs| && ws[Added(k, attrs)..] == attrs
             && (Added(k, attrs) == 1 ==> ws[0] == Attribute(80, Zeros(16))))
  {
    SignsIff(k);
    var ws := RequestAttributes(k, attrs);
    if WantsMA(k) && !HasMA(attrs) {
      assert IsMA(ws[0]);
      assert forall i :: 0 < i < |ws| ==> ws[i] == attrs[i - 1];
    }
  }

  lemma ReplyFamilies(k: Kind, code: byte)
    ensures IsRequestCode(RequestCode(k))
    ensures IsExpectedReply(k, code) ==> IsResponseCode(code)
    ensures FamilyOf(RequestCode(k)).AccessReq? <==> k.Access?
  {
  }

  // The Message-Authenticators the caller brought survive signing.
  ghost predicate MASurvives(a: Ask) {
    if a.kind.Access? then RoomForMA(a.attrs) else StandardMA(a.attrs)
  }

  // ----- what is sent -----

  // Which codes answer which: sections 4 of RFC 2865 and of RFC 2866, section 2 of RFC 5176.
  predicate Answers(request: byte, reply: byte) {
    || (request == 1 && reply in {2, 3, 11})
    || (request == 4 && reply == 5)
    || (request == 40 && reply in {41, 42})
    || (request == 43 && reply in {44, 45})
  }

  lemma RequestHeader(w: World, a: Ask, id: byte)
    requires Marshaled(w.md5, w.hmac, RequestOf(a, id), w.secret).Ok?
    ensures (var raw := Marshaled(w.md5, w.hmac, RequestOf(a, id), w.secret).value;
             |raw| >= 20 && raw[0] == RequestCode(a.kind) && raw[1] == id
             && (a.kind.Access? ==> raw[4..20] == RequestOf(a, id).auth))
  {
    var m := RequestOf(a, id);
    ReplyFamilies(a.kind, m.code);
    var s := SerializeAttributes(w.md5, m.code, m.auth, w.secret, m.attrs).value;
    SignedParts(w.md5, w.hmac, m, s, w.secret);
    CoveredBy(w.md5, m, Patched(s.body, s.off, Zeros(16)), w.secret);
  }

  // Octet 0 of all that is sent is the code of the kind, octet 1 the acquired Identifier,
  // and the replies the call accepts are exactly those that answer that code.
  lemma CallSendsKind(w: World, a: Ask, id: byte, j: nat)
    requires j < |CallLog(w, a, id)| && CallLog(w, a, id)[j].Sent?
    ensures (var raw := CallLog(w, a, id)[j].raw;
             Marshaled(w.md5, w.hmac, RequestOf(a, id), w.secret) == Ok(raw) && |raw| >= 20
             && raw[0] == (match a.kind case Access(_) => 1 case Account => 4 case CoA(_, _) => 43 case Disconnect(_, _) => 40)
             && raw[1] == id
             && forall c: byte :: IsExpectedReply(a.kind, c) <==> Answers(raw[0], c))
  {
    var raw := Marshaled(w.md5, w.hmac, RequestOf(a, id), w.secret).value;
    RequestHeader(w, a, id);
    LogIff(TrialOf(w, a, id, raw), 0);
    assert IsEvent(TrialOf(w, a, id, raw), j, CallLog(w, a, id)[j]);
  }

  // The server reads the code, the Identifier, the caller's authenticator or, where that
  // is zero, the random one, and the caller's attributes, in order, behind the added
  // Message-Authenticator, if any; and a Message-Authenticator verifies.
  lemma CallCarriesRequest(w: World, a: Ask, id: byte, anyAuth: Block)
    requires MASurvives(a) && Marshaled(w.md5, w.hmac, RequestOf(a, id), w.secret).Ok?
    ensures (var raw := Marshaled(w.md5, w.hmac, RequestOf(a, id), w.secret).value;
             var r, n := Unmarshaled(w.md5, raw, w.secret), Added(a.kind, a.attrs);
             |raw| >= 20 && r.Ok? && r.value.code == raw[0] && r.value.id == id && r.value.auth == raw[4..20]
             && (a.kind.Access? ==> r.value.auth == if a.auth == Zeros(16) then a.random else a.auth)
             && |r.value.attrs| == n + |a.attrs|
             && AllCarried(w.md5, a.kind.Access?, r.value.auth, w.secret, a.attrs, r.value.attrs[n..])
             && (n == 1 ==> r.value.attrs[0].typ == 80 && |r.value.attrs[0].value| == 16)
             && (Signs(a.kind) || HasMA(a.attrs) ==> VerifyMessageAuthenticator(w.hmac, raw, anyAuth, w.secret).Ok?))
  {
    var m, n := RequestOf(a, id), Added(a.kind, a.attrs);
    ReplyFamilies(a.kind, m.code);
    RequestMAIff(a.kind, a.attrs);
    RequestHeader(w, a, id);
    RequestCarried(w.md5, w.hmac, m, w.secret);
    RequestAccepted(w.md5, w.hmac, m, w.secret, anyAuth);
    var r := Unmarshaled(w.md5, Marshaled(w.md5, w.hmac, m, w.secret).value, w.secret).value;
    assert n == 1 ==> Carried(w.md5, a.kind.Access?, m.auth, w.secret, m.attrs[0], r.attrs[0]);
    CarriedTail(w.md5, a.kind.Access?, m.auth, w.secret, m.attrs, r.attrs, n);
    if !a.kind.Access? {
      CarriedPlain(w.md5, m.auth, r.auth, w.secret, a.attrs, r.attrs[n..]);
    }
  }

  // Where nothing is hidden the authenticator plays no part.
  lemma CarriedPlain(md5: Hash, auth: Block, other: Block, secret: bytes, xs: seq<Attribute>, ys: seq<Attribute>)
    requires AllCarried(md5, false, auth, secret, xs, ys)
    ensures AllCarried(md5, false, other, secret, xs, ys)
  {
    forall i | 0 <= i < |xs|
      ensures Carried(md5, false, other, secret, xs[i], ys[i])
    {
      assert Carried(md5, false, auth, secret, xs[i], ys[i]);
    }
  }

  // ----- what comes back -----

  // The trial of a call: for every kind, the reply is checked against octets 4 to 20 of
  // what was sent. A request that does not marshal sends nothing; otherwise the call ends
  // as its exchange does, except that a reply which does not answer the code that was sent
  // is refused.
  lemma CallOutcomeIff(w: World, a: Ask, id: byte)
    ensures match Marshaled(w.md5, w.hmac, RequestOf(a, id), w.secret)
            case Err(e) => CallOutcome(w, a, id) == Failure(Refused(e)) && CallLog(w, a, id) == []
            case Ok(raw) =>
              |raw| >= 20
              && (var t := Trial(w.md5, w.hmac, w.secret, raw, id, raw[4..20], w.policy, w.turns);
                  CallLog(w, a, id) == ExchangeLog(t)
                  && (forall m :: CallOutcome(w, a, id) == Replied(m) <==> ExchangeOutcome(t) == Replied(m) && Answers(raw[0], m.code))
                  && (forall r :: CallOutcome(w, a, id) == Failure(r) <==>
                        ExchangeOutcome(t) == Failure(r)
                        || (r == UnexpectedReply && ExchangeOutcome(t).Replied? && !Answers(raw[0], ExchangeOutcome(t).packet.code))))
  {
    if Marshaled(w.md5, w.hmac, RequestOf(a, id), w.secret).Ok? {
      RequestHeader(w, a, id);
    }
  }

  // A call never returns a packet of another exchange or of another kind: what comes
  // back has the acquired Identifier and a code that answers the request.
  lemma CallReturnsAnswer(w: World, a: Ask, id: byte)
    requires CallOutcome(w, a, id).Replied?
    ensures CallOutcome(w, a, id).packet.id == id
    ensures Marshaled(w.md5, w.hmac, RequestOf(a, id), w.secret).Ok?
    ensures (var raw := Marshaled(w.md5, w.hmac, RequestOf(a, id), w.secret).value;
             |raw| >= 20 && Answers(raw[0], CallOutcome(w, a, id).packet.code))
  {
    var raw := Marshaled(w.md5, w.hmac, RequestOf(a, id), w.secret).value;
    var t := TrialOf(w, a, id, raw);
    RequestHeader(w, a, id);
    RepliedId(t, CallOutcome(w, a, id).packet);
  }

  // The server answers attempt `k` with a reply to the request as it decoded it.
  ghost predicate ServedAt(w: World, raw: bytes, k: nat, code: byte, attrs: seq<Attribute>) {
    var seen := Unmarshaled(w.md5, raw, w.secret);
    && seen.Ok? && w.turns(k).answer.Received?
    && Marshaled(w.md5, w.hmac, ReplyWith(seen.value, code, attrs), w.secret) == Ok(w.turns(k).answer.raw)
  }

  lemma CallIsHonest(w: World, a: Ask, id: byte, code: byte, attrs: seq<Attribute>)
    requires MASurvives(a) && RoomForMA(attrs) && IsExpectedReply(a.kind, code)
    requires Marshaled(w.md5, w.hmac, RequestOf(a, id), w.secret).Ok?
    ensures (var raw := Marshaled(w.md5, w.hmac, RequestOf(a, id), w.secret).value;
             |raw| >= 20 && (a.kind.Access? ==> raw[4..20] == RequestOf(a, id).auth)
             && (var seen := Unmarshaled(w.md5, raw, w.secret);
                 seen.Ok? && seen.value.id == id && seen.value.auth == raw[4..20]))
  {
    var m := RequestOf(a, id);
    ReplyFamilies(a.kind, code);
    RequestMAIff(a.kind, a.attrs);
    assert RoomForMA(m.attrs) && (!a.kind.Access? ==> StandardMA(m.attrs));
    RequestAccepted(w.md5, w.hmac, m, w.secret, Zeros(16));
  }

  // The whole path: client, lossy network, server and back. As soon as one attempt
  // reaches the server and its answer reaches the client, the call returns that
  // answer, with its attributes as the server set them.
  lemma CallReachesServer(w: World, a: Ask, id: byte, k: nat, code: byte, attrs: seq<Attribute>)
    requires Marshaled(w.md5, w.hmac, RequestOf(a, id), w.secret).Ok?
    requires MASurvives(a) && RoomForMA(attrs) && IsExpectedReply(a.kind, code)
    requires ServedAt(w, Marshaled(w.md5, w.hmac, RequestOf(a, id), w.secret).value, k, code, attrs)
    requires k < Attempts(w.policy) && (k > 0 ==> w.turns(k).pauseEnds.None?)
    requires (var raw := Marshaled(w.md5, w.hmac, RequestOf(a, id), w.secret).value;
              |raw| >= 20 && AllPass(TrialOf(w, a, id, raw), k))
    ensures exists mac, auth: Block ::
              CallOutcome(w, a, id) == Replied(Message(code, id, auth, SetMA(attrs, mac)))
  {
    CallIsHonest(w, a, id, code, attrs);
    ReplyFamilies(a.kind, code);
    var raw := Marshaled(w.md5, w.hmac, RequestOf(a, id), w.secret).value;
    var t := TrialOf(w, a, id, raw);
    var reply := ReplyWith(Unmarshaled(w.md5, raw, w.secret).value, code, attrs);
    LossyExchangeSucceeds(t, reply, k);
  }
}
