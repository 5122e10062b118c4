// Runs that show where duplicate detection stops promising anything, and the exact
// bounds up to which it does.
module DedupLimits {
  import opened Bytes
  import opened Dedup
  import opened DedupRuns

  // The table after one entry was created at 0 and evicted at ttl.
  function OneGone(k: bytes, ttl: int): Table {
    Table(ttl, map[], [Entry(k, None, 1, ttl)])
  }

  // ... and a second one created with clock reading `now`.
  function SecondLive(k: bytes, ttl: int, now: int): Table {
    Table(ttl, map[k := 1], [Entry(k, None, 1, ttl), Entry(k, None, 0, now + ttl)])
  }

  lemma FirstEvicted(k: bytes, ttl: int, now: int)
    requires ttl > 0 && now < ttl
    ensures OneGone(k, ttl).Valid() && SecondLive(k, ttl, now).Valid()
    ensures !IsDuplicate(OneGone(k, ttl), k, now)
    ensures AfterSeen(OneGone(k, ttl), k, now) == SecondLive(k, ttl, now)
  {
    var t := OneGone(k, ttl);
    assert Evict(t, now).entries == map[];
    assert Evict(t, now).arena == t.arena;
  }

  // The table while the first entry lives.
  function FirstLive(k: bytes, ttl: int): Table {
    Table(ttl, map[k := 0], [Entry(k, None, 0, ttl)])
  }

  lemma FirstInserted(k: bytes, ttl: int)
    requires ttl > 0
    ensures FirstLive(k, ttl).Valid()
    ensures !IsDuplicate(NewTable(ttl), k, 0)
    ensures AfterSeen(NewTable(ttl), k, 0) == FirstLive(k, ttl)
  {
    assert Evict(NewTable(ttl), 0) == NewTable(ttl);
  }

  lemma FirstExpires(k: bytes, ttl: int)
    requires ttl > 0
    ensures FirstLive(k, ttl).Valid()
    ensures Evict(FirstLive(k, ttl), ttl) == OneGone(k, ttl)
  {
    assert Evict(FirstLive(k, ttl), ttl).entries == map[];
  }

  lemma Extend(ss: seq<Server>, acts: seq<Step>, ttl: int, a: Step, n: Server)
    requires IsRun(ss, acts, ttl) && Next(ss[|acts|], a, n)
    ensures IsRun(ss + [n], acts + [a], ttl)
  {
    var ts, bs := ss + [n], acts + [a];
    forall i | 0 <= i < |bs|
      ensures Next(ts[i], bs[i], ts[i + 1])
    {
      if i < |acts| {
        assert Next(ss[i], acts[i], ss[i + 1]);
      }
    }
  }

  // Three requests for one key.
  lemma ThreeArrivals(k: bytes, ttl: int) returns (ss: seq<Server>, acts: seq<Step>)
    ensures acts == [Arrive(k), Arrive(k), Arrive(k)] && IsRun(ss, acts, ttl)
    ensures ss[3] == Start(ttl).(requests := [Request(k, Arrived), Request(k, Arrived), Request(k, Arrived)])
  {
    var s0 := Start(ttl);
    var s1 := s0.(requests := [Request(k, Arrived)]);
    var s2 := s0.(requests := [Request(k, Arrived), Request(k, Arrived)]);
    var s3 := s0.(requests := [Request(k, Arrived), Request(k, Arrived), Request(k, Arrived)]);
    ss, acts := [s0, s1, s2, s3], [Arrive(k), Arrive(k), Arrive(k)];
    assert Next(s0, acts[0], s1) && Next(s1, acts[1], s2) && Next(s2, acts[2], s3);
  }

  // The first of them is seen, by a clock reading of 0 taken at `time`.
  lemma FirstSeen(k: bytes, ttl: int, time: int, requests: seq<Request>)
    requires ttl > 0 && time >= 0 && requests != [] && requests[0] == Request(k, Arrived)
    ensures (var s := Start(ttl).(requests := requests);
             var n := Server(FirstLive(k, ttl), requests[0 := Request(k, Handling(0))], map[], time);
             Next(s, DoSeen(0, 0, time), n) && StartsHandler(s, DoSeen(0, 0, time), k))
  {
    FirstInserted(k, ttl);
  }

  lemma FirstCleaned(k: bytes, ttl: int, requests: seq<Request>)
    requires ttl > 0
    ensures Next(Server(FirstLive(k, ttl), requests, map[], 0), DoCleanup(ttl),
                 Server(OneGone(k, ttl), requests, map[], ttl))
  {
    FirstExpires(k, ttl);
  }

  // The first is handled, and its entry expires.
  lemma Prologue(k: bytes, ttl: int) returns (ss: seq<Server>, acts: seq<Step>)
    requires ttl > 0
    ensures acts == [Arrive(k), Arrive(k), Arrive(k), DoSeen(0, 0, 0), DoCleanup(ttl)] && IsRun(ss, acts, ttl)
    ensures ss[5] == Server(OneGone(k, ttl), [Request(k, Handling(0)), Request(k, Arrived), Request(k, Arrived)], map[], ttl)
  {
    ss, acts := ThreeArrivals(k, ttl);
    var requests := [Request(k, Handling(0)), Request(k, Arrived), Request(k, Arrived)];
    assert ss[3].requests[0 := Request(k, Handling(0))] == requests;
    var s4 := Server(FirstLive(k, ttl), requests, map[], 0);
    var s5 := Server(OneGone(k, ttl), requests, map[], ttl);
    FirstSeen(k, ttl, 0, ss[3].requests);
    Extend(ss, acts, ttl, DoSeen(0, 0, 0), s4);
    FirstCleaned(k, ttl, requests);
    Extend(ss + [s4], acts + [DoSeen(0, 0, 0)], ttl, DoCleanup(ttl), s5);
    ss, acts := ss + [s4] + [s5], acts + [DoSeen(0, 0, 0)] + [DoCleanup(ttl)];
  }

  // Seen reads the clock before it waits for the mutex. If the reading is stale by
  // ttl, the entry it creates is born expired, and two handlers for one key start
  // at the same instant.
  lemma StaleReadingRunsTwice(k: bytes, ttl: int)
    returns (ss: seq<Server>, acts: seq<Step>, i: nat, j: nat)
    requires ttl > 0
    ensures IsRun(ss, acts, ttl) && i < j < |acts|
    ensures StartsHandler(ss[i], acts[i], k) && StartsHandler(ss[j], acts[j], k)
    ensures acts[i].time == acts[j].time
  {
    ss, acts := Prologue(k, ttl);
    FirstEvicted(k, ttl, 0);
    var s6 := ss[5].(table := SecondLive(k, ttl, 0),
                     requests := [Request(k, Handling(0)), Request(k, Handling(1)), Request(k, Arrived)]);
    var a, b := DoSeen(1, 0, ttl), DoSeen(2, ttl, ttl);
    Extend(ss, acts, ttl, a, s6);
    ss, acts := ss + [s6], acts + [a];
    assert k !in Evict(s6.table, ttl).entries;
    Extend(ss, acts, ttl, b, Apply(s6, b));
    ss, acts, i, j := ss + [Apply(s6, b)], acts + [b], 5, 6;
  }

  // The first handler ends after its entry was replaced, and stores its reply.
  lemma LateStore(k: bytes, ttl: int, out: bytes) returns (ss: seq<Server>, acts: seq<Step>)
    requires ttl > 0 && out != []
    ensures acts == [Arrive(k), Arrive(k), Arrive(k), DoSeen(0, 0, 0), DoCleanup(ttl),
                     DoSeen(1, ttl, ttl), HandlerDone(0, Some(out)), DoStore(0)]
    ensures IsRun(ss, acts, ttl) && ss[7].clock == ttl
    ensures ss[8] == Server(Table(ttl, map[k := 1], [Entry(k, None, 1, ttl), Entry(k, Some(out), 1, ttl + ttl)]),
                            [Request(k, Finished(Some(out))), Request(k, Handling(1)), Request(k, Arrived)], map[0 := out], ttl)
  {
    ss, acts := Prologue(k, ttl);
    var gone := OneGone(k, ttl);
    var t6 := Table(ttl, map[k := 1], [Entry(k, None, 1, ttl), Entry(k, None, 0, ttl + ttl)]);
    assert Evict(gone, ttl).entries == map[] && Evict(gone, ttl).arena == gone.arena;
    assert AfterSeen(gone, k, ttl) == t6;
    var s6 := ss[5].(table := t6, requests := [Request(k, Handling(0)), Request(k, Handling(1)), Request(k, Arrived)]);
    Extend(ss, acts, ttl, DoSeen(1, ttl, ttl), s6);
    ss, acts := ss + [s6], acts + [DoSeen(1, ttl, ttl)];

    var s7 := s6.(outputs := map[0 := out], requests := [Request(k, Storing(0, out)), Request(k, Handling(1)), Request(k, Arrived)]);
    Extend(ss, acts, ttl, HandlerDone(0, Some(out)), s7);
    ss, acts := ss + [s7], acts + [HandlerDone(0, Some(out))];

    var t8 := Table(ttl, map[k := 1], [Entry(k, None, 1, ttl), Entry(k, Some(out), 1, ttl + ttl)]);
    var s8 := s7.(table := t8, requests := [Request(k, Finished(Some(out))), Request(k, Handling(1)), Request(k, Arrived)]);
    assert AfterStore(t6, k, out) == t8;
    Extend(ss, acts, ttl, DoStore(0), s8);
    ss, acts := ss + [s8], acts + [DoStore(0)];
  }

  // A handler that outlives its entry stores into the next entry of its key, and a
  // duplicate of the second request is answered with the reply to the first.
  lemma LateStoreLeaks(k: bytes, ttl: int, out: bytes)
    returns (ss: seq<Server>, acts: seq<Step>, i: nat)
    requires ttl > 0 && out != []
    ensures IsRun(ss, acts, ttl) && i < |acts| && acts[i] == DoReceive(2)
    ensures |ss[i].requests| == 3 && ss[i].requests[2].phase == Waiting(1) && ss[i].outputs == map[0 := out]
    ensures |ss[i + 1].requests| == 3 && ss[i + 1].requests[2].phase == Finished(Some(out))
  {
    ss, acts := LateStore(k, ttl, out);
    var s8 := ss[8];
    assert Evict(s8.table, ttl).entries == s8.table.entries && Evict(s8.table, ttl).arena == s8.table.arena;
    var s9 := s8.(requests := [Request(k, Finished(Some(out))), Request(k, Handling(1)), Request(k, Duplicate)]);
    Extend(ss, acts, ttl, DoSeen(2, ttl, ttl), s9);
    ss, acts := ss + [s9], acts + [DoSeen(2, ttl, ttl)];

    var s10 := s9.(requests := [Request(k, Finished(Some(out))), Request(k, Handling(1)), Request(k, Waiting(1))]);
    Extend(ss, acts, ttl, DoLookup(2), s10);
    ss, acts := ss + [s10], acts + [DoLookup(2)];

    Extend(ss, acts, ttl, DoReceive(2), Apply(s10, DoReceive(2)));
    i := 10;
    ss, acts := ss + [Apply(s10, DoReceive(2))], acts + [DoReceive(2)];
  }

  // ----- how late a reply may be stored -----

  // Does every entry hold only what its own handler marshaled, in every state of every
  // run whose handlers store within `d`?
  ghost predicate RepliesRight(ttl: int, d: int) {
    forall ss: seq<Server>, acts: seq<Step>, j: nat ::
      IsRun(ss, acts, ttl) && StoresWithin(ss, acts, d) && j < |ss| ==> ReplyOk(ss[j])
  }

  lemma LateRun(ttl: int, d: int)
    requires d > NewTable(ttl).ttl
    ensures !RepliesRight(ttl, d)
  {
    var t := NewTable(ttl).ttl;
    assert Start(ttl) == Start(t);
    var ss, acts := LateStore([], t, [0]);
    assert IsRun(ss, acts, ttl);
    assert StoresWithin(ss, acts, d);
    assert ss[8].table.arena[1].reply == Some([0]) && 1 !in ss[8].outputs;
  }

  // A reply lands in the entry it was made for exactly when handlers store within ttl of
  // the clock reading of their Seen.
  lemma RepliesRightIff(ttl: int, d: int)
    ensures RepliesRight(ttl, d) <==> d <= NewTable(ttl).ttl
  {
    if d <= NewTable(ttl).ttl {
      forall ss: seq<Server>, acts: seq<Step>, j: nat | IsRun(ss, acts, ttl) && StoresWithin(ss, acts, d) && j < |ss|
        ensures ReplyOk(ss[j])
      {
        PromptReplies(ss, acts, ttl, j);
      }
    } else {
      LateRun(ttl, d);
    }
  }

  // ----- how far apart two handlers start -----

  lemma SecondSeen(k: bytes, ttl: int, e: int, requests: seq<Request>)
    requires ttl > 0 && e <= ttl && |requests| > 1 && requests[1] == Request(k, Arrived)
    ensures FirstLive(k, ttl).Valid()
    ensures StartsHandler(Server(FirstLive(k, ttl), requests, map[], e), DoSeen(1, ttl, ttl), k)
  {
  }

  // Two starts for one key exactly ttl - e apart, the first with a reading `e` old.
  lemma TightRun(key: bytes, ttl: int, e: int) returns (ss: seq<Server>, acts: seq<Step>)
    requires 0 <= e <= NewTable(ttl).ttl
    ensures TwoStarts(ss, acts, ttl, key, e, 3, 4) && acts[3].time == e && acts[4].time == NewTable(ttl).ttl
  {
    var t := NewTable(ttl).ttl;
    assert Start(ttl) == Start(t);
    ss, acts := ThreeArrivals(key, ttl);
    var requests := ss[3].requests[0 := Request(key, Handling(0))];
    var s4 := Server(FirstLive(key, t), requests, map[], e);
    var a, b := DoSeen(0, 0, e), DoSeen(1, t, t);
    FirstSeen(key, t, e, ss[3].requests);
    SecondSeen(key, t, e, requests);
    Extend(ss, acts, ttl, a, s4);
    Extend(ss + [s4], acts + [a], ttl, b, Apply(s4, b));
    ss, acts := ss + [s4] + [Apply(s4, b)], acts + [a] + [b];
  }

  // Are the handler starts of a key always at least `w` apart?
  ghost predicate KeptApart(ttl: int, key: bytes, d: int, w: int) {
    forall ss: seq<Server>, acts: seq<Step>, i: nat, j: nat :: TwoStarts(ss, acts, ttl, key, d, i, j) ==> acts[j].time - acts[i].time >= w
  }

  // When no reading is older than `d`, a window is sure to hold at most one handler
  // start for a key exactly up to the length ttl - d.
  lemma AtMostOncePerWindowIff(ttl: int, key: bytes, d: int, w: int)
    requires d >= 0
    ensures KeptApart(ttl, key, d, w) <==> w <= if d < NewTable(ttl).ttl then NewTable(ttl).ttl - d else 0
  {
    var t := NewTable(ttl).ttl;
    if KeptApart(ttl, key, d, w) {
      var e := if d < t then d else t;
      var ss, acts := TightRun(key, ttl, e);
      assert TwoStarts(ss, acts, ttl, key, d, 3, 4);
    }
    if w <= if d < t then t - d else 0 {
      forall ss: seq<Server>, acts: seq<Step>, i: nat, j: nat | TwoStarts(ss, acts, ttl, key, d, i, j)
        ensures acts[j].time - acts[i].time >= w
      {
        StartsApart(ss, acts, ttl, key, d, i, j);
      }
    }
  }
}
