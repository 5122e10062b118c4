// server/server.go over server/dedup.go: every interleaving of request handlers.
module DedupRuns {
  import opened Bytes
  import opened Dedup

  // How far handleOne has come with one request.
  datatype Phase =
    | Arrived
    | Handling(entry: nat)               // Seen answered false: the handler runs
    | Storing(entry: nat, out: bytes)    // the reply is marshaled, not yet stored
    | Duplicate                          // Seen answered true
    | Waiting(entry: nat)                // Lookup holds the entry, waits for done
    | Finished(sent: Option<bytes>)

  datatype Request = Request(key: bytes, phase: Phase)

  // `outputs` records what the handler of an entry marshaled; `clock` is the
  // latest instant at which an operation took the mutex.
  datatype Server = Server(table: Table, requests: seq<Request>, outputs: map<nat, bytes>, clock: int)

  // Seen reads the clock before it takes the mutex, so its reading may be older than the
  // instant `time` at which it acts. Cleanup reads it under the mutex.
  datatype Step =
    | Arrive(key: bytes)
    | DoSeen(r: nat, reading: int, time: int)
    | HandlerDone(r: nat, out: Option<bytes>)
    | DoStore(r: nat)
    | DoLookup(r: nat)
    | DoReceive(r: nat)
    | DoCleanup(time: int)

  function Start(ttl: int): Server {
    Server(NewTable(ttl), [], map[], 0)
  }

  predicate Enabled(s: Server, a: Step) {
    match a
    case Arrive(_) => true
    case DoSeen(r, reading, time) => r < |s.requests| && s.requests[r].phase.Arrived? && reading <= time && s.clock <= time
    case HandlerDone(r, out) => r < |s.requests| && s.requests[r].phase.Handling? && out != Some([])
    case DoStore(r) => r < |s.requests| && s.requests[r].phase.Storing?
    case DoLookup(r) => r < |s.requests| && s.requests[r].phase.Duplicate?
    case DoReceive(r) => r < |s.requests| && s.requests[r].phase.Waiting?
                         && s.requests[r].phase.entry < |s.table.arena| && s.table.arena[s.requests[r].phase.entry].Done()
    case DoCleanup(time) => s.clock <= time
  }

  function MoveTo(s: Server, r: nat, p: Phase): seq<Request>
    requires r < |s.requests|
  {
    s.requests[r := s.requests[r].(phase := p)]
  }

  function Apply(s: Server, a: Step): Server
    requires s.table.Valid() && Enabled(s, a)
  {
    match a
    case Arrive(key) => s.(requests := s.requests + [Request(key, Arrived)])
    case DoSeen(r, reading, time) =>
      var key := s.requests[r].key;
      s.(table := AfterSeen(s.table, key, reading), clock := time,
         requests := MoveTo(s, r, if IsDuplicate(s.table, key, reading) then Duplicate else Handling(|s.table.arena|)))
    case HandlerDone(r, out) =>
      // An error, a silent handler or a failed Marshal ends the request without a Store. (A panic
      // ends the process, and with it the run.)
      var entry := s.requests[r].phase.entry;
      if out.None? then s.(requests := MoveTo(s, r, Finished(None)))
      else s.(requests := MoveTo(s, r, Storing(entry, out.value)), outputs := s.outputs[entry := out.value])
    case DoStore(r) =>
      var out := s.requests[r].phase.out;
      s.(table := AfterStore(s.table, s.requests[r].key, out), requests := MoveTo(s, r, Finished(Some(out))))
    case DoLookup(r) =>
      var found := LookupEntry(s.table, s.requests[r].key);
      s.(requests := MoveTo(s, r, if found.None? then Finished(None) else Waiting(found.value)))
    case DoReceive(r) =>
      s.(requests := MoveTo(s, r, Finished(s.table.arena[s.requests[r].phase.entry].reply)))
    case DoCleanup(time) =>
      s.(table := Evict(s.table, time), clock := time)
  }

  // ----- what every step keeps: the table -----

  // closed at most once; closed exactly when answered or evicted; off the table
  // only after its time.
  predicate EntryOk(t: Table, clock: int, i: nat)
    requires i < |t.arena|
  {
    && t.arena[i].closes <= 1
    && (t.arena[i].Done() <==> t.arena[i].reply.Some? || !t.Live(i))
    && (t.Live(i) || t.arena[i].expires <= clock)
  }

  ghost predicate TableOk(t: Table, clock: int) {
    t.Valid() && forall i :: 0 <= i < |t.arena| ==> EntryOk(t, clock, i)
  }

  lemma EvictOk(t: Table, clock: int, reading: int, time: int)
    requires TableOk(t, clock) && reading <= time && clock <= time
    ensures TableOk(Evict(t, reading), time)
  {
    EvictValid(t, reading);
    var n := Evict(t, reading);
    forall i | 0 <= i < |n.arena|
      ensures EntryOk(n, time, i)
    {
      assert EntryOk(t, clock, i);
      assert n.arena[i] == EvictedEntry(t, reading, i);
    }
  }

  lemma InsertOk(t: Table, clock: int, key: bytes, now: int)
    requires TableOk(t, clock)
    ensures TableOk(Insert(t, key, now), clock)
  {
    var n := Insert(t, key, now);
    forall i | 0 <= i < |n.arena|
      ensures EntryOk(n, clock, i)
    {
      if i < |t.arena| {
        assert EntryOk(t, clock, i);
        assert n.arena[i] == t.arena[i];
      }
    }
  }

  lemma StoreOk(t: Table, clock: int, key: bytes, out: bytes)
    requires TableOk(t, clock) && out != []
    ensures TableOk(AfterStore(t, key, out), clock)
  {
    var n := AfterStore(t, key, out);
    forall i | 0 <= i < |n.arena|
      ensures EntryOk(n, clock, i)
    {
      assert EntryOk(t, clock, i);
    }
  }

  // ----- what every step keeps: the requests -----

  // The entry a request works for, if it is the one running the handler.
  function Owned(q: Request): Option<nat> {
    match q.phase
    case Handling(e) => Some(e)
    case Storing(e, _) => Some(e)
    case _ => None
  }

  predicate RequestOk(t: Table, outputs: map<nat, bytes>, q: Request) {
    match q.phase
    case Handling(e) => e < |t.arena| && t.arena[e].key == q.key && e !in outputs
    case Storing(e, out) => e < |t.arena| && t.arena[e].key == q.key && e in outputs && outputs[e] == out && out != []
    case Waiting(e) => e < |t.arena| && t.arena[e].key == q.key
    case _ => true
  }

  ghost predicate OwnersOk(t: Table, requests: seq<Request>, outputs: map<nat, bytes>) {
    && (forall r :: 0 <= r < |requests| ==> RequestOk(t, outputs, requests[r]))
    && (forall r, q :: 0 <= r < q < |requests| && Owned(requests[r]).Some? ==> Owned(requests[r]) != Owned(requests[q]))
    && (forall i :: i in outputs ==> i < |t.arena|)
  }

  // Entries never lose their number or their key.
  ghost predicate Grows(t: Table, n: Table) {
    t.ttl == n.ttl && |t.arena| <= |n.arena|
    && forall i :: 0 <= i < |t.arena| ==>
         n.arena[i].key == t.arena[i].key && n.arena[i].expires == t.arena[i].expires
  }

  lemma OwnersFrame(t: Table, n: Table, requests: seq<Request>, outputs: map<nat, bytes>)
    requires OwnersOk(t, requests, outputs) && Grows(t, n)
    ensures OwnersOk(n, requests, outputs)
  {
    forall r | 0 <= r < |requests|
      ensures RequestOk(n, outputs, requests[r])
    {
      assert RequestOk(t, outputs, requests[r]);
    }
  }

  // One request moves on without taking over another one's entry.
  lemma OwnersMove(t: Table, requests: seq<Request>, outputs: map<nat, bytes>, r: nat, p: Phase)
    requires OwnersOk(t, requests, outputs) && r < |requests|
    requires RequestOk(t, outputs, requests[r].(phase := p))
    requires Owned(requests[r].(phase := p)).None? || Owned(requests[r].(phase := p)) == Owned(requests[r])
    ensures OwnersOk(t, requests[r := requests[r].(phase := p)], outputs)
  {
  }

  lemma OwnersTakeNew(t: Table, n: Table, requests: seq<Request>, outputs: map<nat, bytes>, r: nat)
    requires OwnersOk(t, requests, outputs) && r < |requests| && Grows(t, n)
    requires |t.arena| < |n.arena| && n.arena[|t.arena|].key == requests[r].key
    ensures OwnersOk(n, requests[r := requests[r].(phase := Handling(|t.arena|))], outputs)
  {
    OwnersFrame(t, n, requests, outputs);
    assert forall q :: 0 <= q < |requests| ==> RequestOk(t, outputs, requests[q]);
  }

  lemma OwnersOutput(t: Table, requests: seq<Request>, outputs: map<nat, bytes>, r: nat, out: bytes)
    requires OwnersOk(t, requests, outputs) && r < |requests| && requests[r].phase.Handling? && out != []
    ensures (var e := requests[r].phase.entry;
             OwnersOk(t, requests[r := requests[r].(phase := Storing(e, out))], outputs[e := out]))
  {
    var e := requests[r].phase.entry;
    var after := requests[r := requests[r].(phase := Storing(e, out))];
    assert RequestOk(t, outputs, requests[r]);
    forall q | 0 <= q < |after|
      ensures RequestOk(t, outputs[e := out], after[q])
    {
      assert RequestOk(t, outputs, requests[q]);
      assert q != r ==> Owned(requests[q]) != Some(e);
    }
  }

  // ----- the invariant -----

  ghost predicate Inv(s: Server) {
    TableOk(s.table, s.clock) && OwnersOk(s.table, s.requests, s.outputs)
  }

  lemma SeenGrows(t: Table, key: bytes, now: int)
    requires t.Valid()
    ensures Grows(t, AfterSeen(t, key, now))
    ensures Grows(t, Evict(t, now))
    ensures !IsDuplicate(t, key, now) ==>
              |AfterSeen(t, key, now).arena| == |t.arena| + 1
              && AfterSeen(t, key, now).arena[|t.arena|] == Entry(key, None, 0, now + t.ttl)
  {
  }

  lemma StepKeepsInv(s: Server, a: Step)
    requires Inv(s) && Enabled(s, a)
    ensures Inv(Apply(s, a)) && Grows(s.table, Apply(s, a).table)
  {
    match a
    case Arrive(key) => ArriveKeeps(s.table, s.requests, s.outputs, key);
    case DoSeen(r, reading, time) => SeenKeeps(s, r, reading, time);
    case HandlerDone(r, out) =>
      if out.None? {
        OwnersMove(s.table, s.requests, s.outputs, r, Finished(None));
      } else {
        OwnersOutput(s.table, s.requests, s.outputs, r, out.value);
      }
    case DoStore(r) => StoreKeeps(s, r);
    case DoLookup(r) => LookupKeeps(s, r);
    case DoReceive(r) =>
      OwnersMove(s.table, s.requests, s.outputs, r, Finished(s.table.arena[s.requests[r].phase.entry].reply));
    case DoCleanup(time) =>
      EvictOk(s.table, s.clock, time, time);
      SeenGrows(s.table, [], time);
      OwnersFrame(s.table, Evict(s.table, time), s.requests, s.outputs);
  }

  lemma ArriveKeeps(t: Table, requests: seq<Request>, outputs: map<nat, bytes>, key: bytes)
    requires OwnersOk(t, requests, outputs)
    ensures OwnersOk(t, requests + [Request(key, Arrived)], outputs)
  {
  }

  lemma SeenKeeps(s: Server, r: nat, reading: int, time: int)
    requires Inv(s) && Enabled(s, DoSeen(r, reading, time))
    ensures Inv(Apply(s, DoSeen(r, reading, time))) && Grows(s.table, Apply(s, DoSeen(r, reading, time)).table)
  {
    var key := s.requests[r].key;
    var n := AfterSeen(s.table, key, reading);
    EvictOk(s.table, s.clock, reading, time);
    InsertOk(Evict(s.table, reading), time, key, reading);
    SeenGrows(s.table, key, reading);
    if IsDuplicate(s.table, key, reading) {
      OwnersFrame(s.table, n, s.requests, s.outputs);
      OwnersMove(n, s.requests, s.outputs, r, Duplicate);
    } else {
      OwnersTakeNew(s.table, n, s.requests, s.outputs, r);
    }
  }

  lemma StoreKeeps(s: Server, r: nat)
    requires Inv(s) && Enabled(s, DoStore(r))
    ensures Inv(Apply(s, DoStore(r))) && Grows(s.table, Apply(s, DoStore(r)).table)
  {
    var out := s.requests[r].phase.out;
    assert RequestOk(s.table, s.outputs, s.requests[r]);
    StoreOk(s.table, s.clock, s.requests[r].key, out);
    var n := AfterStore(s.table, s.requests[r].key, out);
    OwnersFrame(s.table, n, s.requests, s.outputs);
    OwnersMove(n, s.requests, s.outputs, r, Finished(Some(out)));
  }

  lemma LookupKeeps(s: Server, r: nat)
    requires Inv(s) && Enabled(s, DoLookup(r))
    ensures Inv(Apply(s, DoLookup(r)))
  {
    var found := LookupEntry(s.table, s.requests[r].key);
    OwnersMove(s.table, s.requests, s.outputs, r, if found.None? then Finished(None) else Waiting(found.value));
  }

  // ----- runs -----

  ghost predicate Next(s: Server, a: Step, n: Server) {
    s.table.Valid() && Enabled(s, a) && n == Apply(s, a)
  }

  // `ss` are the states passed through, `acts` the operations between them, in the
  // order in which they took the mutex.
  ghost predicate IsRun(ss: seq<Server>, acts: seq<Step>, ttl: int) {
    && |ss| == |acts| + 1 && ss[0] == Start(ttl)
    && forall i :: 0 <= i < |acts| ==> Next(ss[i], acts[i], ss[i + 1])
  }

  lemma {:induction false} RunInv(ss: seq<Server>, acts: seq<Step>, ttl: int, i: nat)
    requires IsRun(ss, acts, ttl) && i < |ss|
    ensures Inv(ss[i])
  {
    if i > 0 {
      RunInv(ss, acts, ttl, i - 1);
      assert Next(ss[i - 1], acts[i - 1], ss[i - 1 + 1]);
      StepKeepsInv(ss[i - 1], acts[i - 1]);
    }
  }

  lemma {:induction false} RunGrows(ss: seq<Server>, acts: seq<Step>, ttl: int, i: nat, j: nat)
    requires IsRun(ss, acts, ttl) && i <= j < |ss|
    ensures Grows(ss[i].table, ss[j].table) && ss[i].clock <= ss[j].clock
    ensures forall e :: e in ss[i].outputs ==> e in ss[j].outputs && ss[j].outputs[e] == ss[i].outputs[e]
    decreases j
  {
    if i < j {
      RunGrows(ss, acts, ttl, i, j - 1);
      RunInv(ss, acts, ttl, j - 1);
      assert Next(ss[j - 1], acts[j - 1], ss[j - 1 + 1]);
      StepKeepsInv(ss[j - 1], acts[j - 1]);
      OutputsKept(ss[j - 1], acts[j - 1]);
    }
  }

  lemma OutputsKept(s: Server, a: Step)
    requires Inv(s) && Enabled(s, a)
    ensures s.clock <= Apply(s, a).clock
    ensures forall e :: e in s.outputs ==> e in Apply(s, a).outputs && Apply(s, a).outputs[e] == s.outputs[e]
  {
    if a.HandlerDone? {
      assert RequestOk(s.table, s.outputs, s.requests[a.r]);
    }
  }

  // ----- at most once -----

  // Operation i is a Seen for `key` that answers false: its handler starts.
  ghost predicate StartsHandler(s: Server, a: Step, key: bytes) {
    a.DoSeen? && s.table.Valid() && Enabled(s, a) && s.requests[a.r].key == key && !IsDuplicate(s.table, key, a.reading)
  }

  lemma Started(s: Server, a: Step, key: bytes)
    requires Inv(s) && StartsHandler(s, a, key)
    ensures (var n := Apply(s, a);
             |n.table.arena| == |s.table.arena| + 1
             && n.table.arena[|s.table.arena|].key == key
             && n.table.arena[|s.table.arena|].expires == a.reading + s.table.ttl
             && n.requests[a.r].phase == Handling(|s.table.arena|))
  {
    SeenGrows(s.table, key, a.reading);
  }

  // An earlier entry of the key is expired when a new handler starts.
  lemma OldEntryExpired(s: Server, a: Step, key: bytes, e: nat)
    requires Inv(s) && StartsHandler(s, a, key) && e < |s.table.arena| && s.table.arena[e].key == key
    ensures s.table.arena[e].expires <= a.time
  {
    assert EntryOk(s.table, s.clock, e);
  }

  // Over every interleaving: of two handler starts for one key, the second happens
  // at least ttl after the clock reading of the first.
  lemma AtMostOnce(ss: seq<Server>, acts: seq<Step>, ttl: int, key: bytes, i: nat, j: nat)
    requires IsRun(ss, acts, ttl) && i < j < |acts|
    requires StartsHandler(ss[i], acts[i], key) && StartsHandler(ss[j], acts[j], key)
    ensures acts[j].time >= acts[i].reading + NewTable(ttl).ttl
  {
    RunInv(ss, acts, ttl, i);
    RunInv(ss, acts, ttl, j);
    Started(ss[i], acts[i], key);
    assert Next(ss[i], acts[i], ss[i + 1]);
    RunGrows(ss, acts, ttl, 0, i);
    RunGrows(ss, acts, ttl, i + 1, j);
    OldEntryExpired(ss[j], acts[j], key, |ss[i].table.arena|);
  }

  // No clock reading is older than `d` when its operation takes the mutex.
  ghost predicate StaleAtMost(acts: seq<Step>, d: int) {
    forall i :: 0 <= i < |acts| && acts[i].DoSeen? ==> acts[i].time - acts[i].reading <= d
  }

  ghost predicate TwoStarts(ss: seq<Server>, acts: seq<Step>, ttl: int, key: bytes, d: int, i: nat, j: nat) {
    && IsRun(ss, acts, ttl) && StaleAtMost(acts, d) && i < j < |acts|
    && StartsHandler(ss[i], acts[i], key) && StartsHandler(ss[j], acts[j], key)
  }

  // With readings at most `d` old, two starts for one key are at least ttl - d apart,
  // and never in the wrong order.
  lemma StartsApart(ss: seq<Server>, acts: seq<Step>, ttl: int, key: bytes, d: int, i: nat, j: nat)
    requires TwoStarts(ss, acts, ttl, key, d, i, j)
    ensures acts[j].time - acts[i].time >= NewTable(ttl).ttl - d && acts[j].time >= acts[i].time
  {
    AtMostOnce(ss, acts, ttl, key, i, j);
    assert Next(ss[i], acts[i], ss[i + 1]) && Next(ss[j], acts[j], ss[j + 1]);
    RunGrows(ss, acts, ttl, i + 1, j);
  }

  // ----- one reply per entry -----

  ghost predicate ReplyOk(s: Server) {
    forall i :: 0 <= i < |s.table.arena| && s.table.arena[i].reply.Some? ==>
      i in s.outputs && s.table.arena[i].reply.value == s.outputs[i]
  }

  // The request still owns the live entry of its key when it stores.
  ghost predicate OnTime(s: Server, a: Step) {
    a.DoStore? ==>
      a.r < |s.requests| && s.requests[a.r].phase.Storing?
      && s.requests[a.r].phase.entry < |s.table.arena| && s.table.Live(s.requests[a.r].phase.entry)
  }

  // Exactly when a Store keeps the replies right: Store finds its entry by key
  // only, so after eviction it may hit a newer entry of the same key.
  lemma StoreKeepsRepliesIff(s: Server, r: nat)
    requires Inv(s) && ReplyOk(s) && Enabled(s, DoStore(r))
    ensures (var q := s.requests[r];
             ReplyOk(Apply(s, DoStore(r)))
             <==> (q.key in s.table.entries ==>
                     var hit := s.table.entries[q.key];
                     hit == q.phase.entry || (hit in s.outputs && s.outputs[hit] == q.phase.out)))
  {
    var q := s.requests[r];
    assert RequestOk(s.table, s.outputs, q);
    var n := Apply(s, DoStore(r));
    if q.key in s.table.entries {
      var hit := s.table.entries[q.key];
      assert n.table.arena[hit].reply == Some(q.phase.out);
    }
  }

  lemma StepKeepsReplies(s: Server, a: Step)
    requires Inv(s) && ReplyOk(s) && Enabled(s, a) && OnTime(s, a)
    ensures ReplyOk(Apply(s, a))
  {
    match a
    case DoSeen(r, reading, time) => SeenKeepsReplies(s, r, reading, time);
    case HandlerDone(r, out) => assert RequestOk(s.table, s.outputs, s.requests[r]);
    case DoStore(r) => StoreKeepsRepliesIff(s, r);
                       assert RequestOk(s.table, s.outputs, s.requests[r]);
    case DoCleanup(time) => assert forall i :: 0 <= i < |s.table.arena| ==>
                              Evict(s.table, time).arena[i].reply == s.table.arena[i].reply;
    case _ =>
  }

  lemma SeenKeepsReplies(s: Server, r: nat, reading: int, time: int)
    requires Inv(s) && ReplyOk(s) && Enabled(s, DoSeen(r, reading, time))
    ensures ReplyOk(Apply(s, DoSeen(r, reading, time)))
  {
    SeenGrows(s.table, s.requests[r].key, reading);
    assert forall i :: 0 <= i < |s.table.arena| ==>
      AfterSeen(s.table, s.requests[r].key, reading).arena[i].reply == s.table.arena[i].reply;
  }

  lemma {:induction false} RunReplies(ss: seq<Server>, acts: seq<Step>, ttl: int, i: nat)
    requires IsRun(ss, acts, ttl) && i < |ss|
    requires forall k :: 0 <= k < |acts| ==> OnTime(ss[k], acts[k])
    ensures ReplyOk(ss[i])
  {
    if i > 0 {
      RunReplies(ss, acts, ttl, i - 1);
      RunInv(ss, acts, ttl, i - 1);
      assert Next(ss[i - 1], acts[i - 1], ss[i - 1 + 1]);
      StepKeepsReplies(ss[i - 1], acts[i - 1]);
    }
  }

  // When every Store is on time, a duplicate is answered with exactly what the
  // handler of the entry it waited for marshaled, then and for ever after.
  lemma DuplicateGetsOriginalReply(ss: seq<Server>, acts: seq<Step>, ttl: int, i: nat, j: nat)
    requires IsRun(ss, acts, ttl) && i < |acts| && i < j < |ss| && acts[i].DoReceive?
    requires forall k :: 0 <= k < |acts| ==> OnTime(ss[k], acts[k])
    ensures acts[i].r < |ss[i].requests| && ss[i].requests[acts[i].r].phase.Waiting?
    ensures acts[i].r < |ss[i + 1].requests| && ss[i + 1].requests[acts[i].r].phase.Finished?
    ensures (var e := ss[i].requests[acts[i].r].phase.entry;
             var sent := ss[i + 1].requests[acts[i].r].phase.sent;
             sent.Some? ==> e in ss[j].outputs && ss[j].outputs[e] == sent.value)
  {
    assert Next(ss[i], acts[i], ss[i + 1]);
    RunReplies(ss, acts, ttl, i);
    RunGrows(ss, acts, ttl, i, j);
  }

  // ----- handlers that end in time -----

  lemma OwnedStep(s: Server, a: Step, r: nat)
    requires Inv(s) && Enabled(s, a) && r < |Apply(s, a).requests| && Owned(Apply(s, a).requests[r]).Some?
    ensures (r < |s.requests| && Owned(s.requests[r]) == Owned(Apply(s, a).requests[r]))
         || (a.DoSeen? && a.r == r && StartsHandler(s, a, s.requests[r].key)
             && Owned(Apply(s, a).requests[r]) == Some(|s.table.arena|))
  {
  }

  // The Seen that made a request the owner of its entry set when the entry expires.
  lemma {:induction false} StartOf(ss: seq<Server>, acts: seq<Step>, ttl: int, j: nat, r: nat) returns (i: nat)
    requires IsRun(ss, acts, ttl) && j < |ss| && r < |ss[j].requests| && Owned(ss[j].requests[r]).Some?
    ensures i < j && acts[i].DoSeen? && acts[i].r == r
    ensures (var t, e := ss[j].table, Owned(ss[j].requests[r]).value;
             e < |t.arena| && t.arena[e].expires == acts[i].reading + NewTable(ttl).ttl)
  {
    if j > 0 {
      var s, a := ss[j - 1], acts[j - 1];
      RunInv(ss, acts, ttl, j - 1);
      RunGrows(ss, acts, ttl, 0, j - 1);
      assert Next(s, a, ss[j - 1 + 1]);
      OwnedStep(s, a, r);
      StepKeepsInv(s, a);
      if r < |s.requests| && Owned(s.requests[r]) == Owned(ss[j].requests[r]) {
        i := StartOf(ss, acts, ttl, j - 1, r);
      } else {
        Started(s, a, s.requests[r].key);
        i := j - 1;
      }
    }
  }

  // Every reply is stored less than `d` after the clock reading of the Seen that
  // started its handler.
  ghost predicate StoresWithin(ss: seq<Server>, acts: seq<Step>, d: int)
    requires |ss| == |acts| + 1
  {
    forall i, j :: 0 <= i < j < |acts| && acts[i].DoSeen? && acts[j].DoStore? && acts[i].r == acts[j].r ==>
      ss[j].clock < acts[i].reading + d
  }

  // Then its entry is still live.
  lemma PromptOnTime(ss: seq<Server>, acts: seq<Step>, ttl: int, j: nat)
    requires IsRun(ss, acts, ttl) && j < |acts| && StoresWithin(ss, acts, NewTable(ttl).ttl)
    ensures OnTime(ss[j], acts[j])
  {
    assert Next(ss[j], acts[j], ss[j + 1]);
    if acts[j].DoStore? {
      var i := StartOf(ss, acts, ttl, j, acts[j].r);
      RunInv(ss, acts, ttl, j);
      assert EntryOk(ss[j].table, ss[j].clock, ss[j].requests[acts[j].r].phase.entry);
    }
  }

  lemma PromptReplies(ss: seq<Server>, acts: seq<Step>, ttl: int, j: nat)
    requires IsRun(ss, acts, ttl) && j < |ss| && StoresWithin(ss, acts, NewTable(ttl).ttl)
    ensures ReplyOk(ss[j])
  {
    forall k | 0 <= k < |acts|
      ensures OnTime(ss[k], acts[k])
    {
      PromptOnTime(ss, acts, ttl, k);
    }
    RunReplies(ss, acts, ttl, j);
  }

  // So a bound on the running time of the handlers is enough for the duplicates.
  lemma PromptDuplicateGetsOriginalReply(ss: seq<Server>, acts: seq<Step>, ttl: int, i: nat)
    requires IsRun(ss, acts, ttl) && StoresWithin(ss, acts, NewTable(ttl).ttl)
    requires i < |acts| && acts[i].DoReceive?
    ensures acts[i].r < |ss[i].requests| && ss[i].requests[acts[i].r].phase.Waiting?
    ensures acts[i].r < |ss[i + 1].requests| && ss[i + 1].requests[acts[i].r].phase.Finished?
    ensures (var e := ss[i].requests[acts[i].r].phase.entry;
             var sent := ss[i + 1].requests[acts[i].r].phase.sent;
             sent.Some? ==> e in ss[i].outputs && ss[i].outputs[e] == sent.value)
  {
    assert Next(ss[i], acts[i], ss[i + 1]);
    PromptReplies(ss, acts, ttl, i);
  }

  // ----- release -----

  // In every reachable state the done channel was closed at most once, and a
  // waiting Lookup may go on exactly when its entry is answered or evicted.
  lemma WaiterReleasedIff(ss: seq<Server>, acts: seq<Step>, ttl: int, i: nat, r: nat)
    requires IsRun(ss, acts, ttl) && i < |ss| && r < |ss[i].requests| && ss[i].requests[r].phase.Waiting?
    ensures (var t, e := ss[i].table, ss[i].requests[r].phase.entry;
             e < |t.arena| && t.arena[e].closes <= 1
             && (Enabled(ss[i], DoReceive(r)) <==> t.arena[e].reply.Some? || !t.Live(e)))
  {
    RunInv(ss, acts, ttl, i);
    assert RequestOk(ss[i].table, ss[i].outputs, ss[i].requests[r]);
    assert EntryOk(ss[i].table, ss[i].clock, ss[i].requests[r].phase.entry);
  }

  // The steps of request `r`.
  predicate StepOf(a: Step, r: nat) {
    (a.DoSeen? || a.HandlerDone? || a.DoStore? || a.DoLookup? || a.DoReceive?) && a.r == r
  }

  // What request `r` does next, at any moment and with any outcome of its handler.
  function NextOf(s: Server, r: nat, out: Option<bytes>): Step
    requires r < |s.requests|
  {
    match s.requests[r].phase
    case Arrived => DoSeen(r, s.clock, s.clock)
    case Handling(_) => HandlerDone(r, out)
    case Storing(_, _) => DoStore(r)
    case Duplicate => DoLookup(r)
    case _ => DoReceive(r)
  }

  // Nothing but an open entry ever holds a request up: a Store goes ahead although its
  // entry was evicted, a Lookup although there is none to be found.
  lemma StuckIff(s: Server, r: nat)
    requires Inv(s) && r < |s.requests|
    ensures (forall a :: StepOf(a, r) ==> !Enabled(s, a))
       <==> (s.requests[r].phase.Finished?
             || (s.requests[r].phase.Waiting? && s.table.arena[s.requests[r].phase.entry].closes == 0))
    ensures forall a, b :: StepOf(a, r) && StepOf(b, r) && Enabled(s, a) && Enabled(s, b) && !a.DoSeen? && !a.HandlerDone? ==> a == b
    ensures forall out :: s.requests[r].phase.Handling? && out != Some([]) ==> Enabled(s, NextOf(s, r, out))
  {
    assert RequestOk(s.table, s.outputs, s.requests[r]);
    assert StepOf(NextOf(s, r, None), r);
  }

  // Every step of a request takes it nearer to its end, leaves the others where they are,
  // and ends it exactly in one of four ways: the handler stays silent or fails; its reply
  // is stored and sent; a duplicate finds its entry gone; or its Lookup returns.
  lemma FinishesIff(s: Server, a: Step, r: nat, sent: Option<bytes>)
    requires Inv(s) && Enabled(s, a) && StepOf(a, r)
    ensures (var (q, n) := (s.requests[r], Apply(s, a).requests);
             |n| == |s.requests| && n[r].key == q.key && Progress(n[r].phase) > Progress(q.phase)
             && (forall k :: 0 <= k < |n| && k != r ==> n[k] == s.requests[k])
             && (n[r].phase == Finished(sent) <==>
                   (a == HandlerDone(r, None) && sent == None)
                   || (q.phase.Storing? && sent == Some(q.phase.out))
                   || (q.phase.Duplicate? && q.key !in s.table.entries && sent == None)
                   || (q.phase.Waiting? && sent == s.table.arena[q.phase.entry].reply)))
  {
    assert RequestOk(s.table, s.outputs, s.requests[r]);
  }

  function Progress(p: Phase): nat {
    match p
    case Arrived => 0
    case Handling(_) => 1
    case Duplicate => 1
    case Storing(_, _) => 2
    case Waiting(_) => 2
    case Finished(_) => 3
  }

  // The operations that evict, and the clock reading they evict with.
  predicate Evicts(a: Step, reading: int) {
    a == DoCleanup(reading) || (a.DoSeen? && a.reading == reading)
  }

  // No waiter outlives its entry: the first eviction past the expiry releases it,
  // whether a Cleanup or the Seen of any request evicts.
  lemma EvictionReleases(s: Server, r: nat, a: Step, reading: int)
    requires Inv(s) && Enabled(s, a) && Evicts(a, reading)
    requires r < |s.requests| && s.requests[r].phase.Waiting?
    requires s.requests[r].phase.entry < |s.table.arena| && s.table.arena[s.requests[r].phase.entry].expires <= reading
    ensures Enabled(Apply(s, a), DoReceive(r))
  {
    var e := s.requests[r].phase.entry;
    EvictOk(s.table, s.clock, reading, a.time);
    EvictValid(s.table, reading);
    assert EntryOk(Evict(s.table, reading), a.time, e);
  }

  // So a Cleanup past the expiry, which nothing holds up, is enough.
  lemma CleanupReleases(s: Server, r: nat, time: int)
    requires Inv(s) && s.clock <= time
    requires r < |s.requests| && s.requests[r].phase.Waiting?
    requires s.requests[r].phase.entry < |s.table.arena| && s.table.arena[s.requests[r].phase.entry].expires <= time
    ensures Enabled(s, DoCleanup(time)) && Enabled(Apply(s, DoCleanup(time)), DoReceive(r))
  {
    EvictionReleases(s, r, DoCleanup(time), time);
  }
}
