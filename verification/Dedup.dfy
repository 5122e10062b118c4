// server/dedup.go: the table of requests in flight. Every method body of the
// source runs under one mutex, so each is one atomic operation here.
module Dedup {
  import opened Bytes

  const DEFAULT_DEDUP_TTL := 5_000_000_000 // nanoseconds
  const DEDUP_KEY_SIZE := 128

  // One dedupEntry. `closes` counts the close() calls on its done channel: a
  // receive is ready once it is positive, and Go panics if it ever reaches two.
  datatype Entry = Entry(key: bytes, reply: Option<bytes>, closes: nat, expires: int) {
    predicate Done() { closes > 0 }

    // select { case <-done: default: close(done) }
    function Closed(): Entry {
      if Done() then this else this.(closes := closes + 1)
    }
  }

  // The table maps keys to entries; entries are heap objects that outlive their
  // removal from the table, so they are numbered in order of creation.
  datatype Table = Table(ttl: int, entries: map<bytes, nat>, arena: seq<Entry>) {
    ghost predicate Valid() {
      && ttl > 0
      && forall k :: k in entries ==> entries[k] < |arena| && arena[entries[k]].key == k
    }

    predicate Live(i: nat)
      requires i < |arena|
    {
      arena[i].key in entries && entries[arena[i].key] == i
    }
  }

  // ----- what each operation does to the table -----

  function NewTable(ttl: int): Table {
    Table(if ttl <= 0 then DEFAULT_DEDUP_TTL else ttl, map[], [])
  }

  function EvictedEntry(t: Table, now: int, i: nat): Entry
    requires i < |t.arena|
  {
    if t.Live(i) && now >= t.arena[i].expires then t.arena[i].Closed() else t.arena[i]
  }

  function Evict(t: Table, now: int): Table
    requires t.Valid()
  {
    Table(t.ttl,
          map k | k in t.entries && now < t.arena[t.entries[k]].expires :: t.entries[k],
          seq(|t.arena|, i requires 0 <= i < |t.arena| => EvictedEntry(t, now, i)))
  }

  // Insert a first sighting into an evicted table; a duplicate changes nothing more.
  function Insert(t: Table, key: bytes, now: int): Table {
    if key in t.entries then t
    else Table(t.ttl, t.entries[key := |t.arena|], t.arena + [Entry(key, None, 0, now + t.ttl)])
  }

  function AfterSeen(t: Table, key: bytes, now: int): Table
    requires t.Valid()
  {
    Insert(Evict(t, now), key, now)
  }

  predicate IsDuplicate(t: Table, key: bytes, now: int)
    requires t.Valid()
  {
    key in Evict(t, now).entries
  }

  // append([]byte(nil), reply...) is nil for an empty reply.
  function Copied(reply: bytes): Option<bytes> {
    if reply == [] then None else Some(reply)
  }

  function AfterStore(t: Table, key: bytes, reply: bytes): Table
    requires t.Valid()
  {
    if key !in t.entries then t
    else
      var i := t.entries[key];
      t.(arena := t.arena[i := t.arena[i].(reply := Copied(reply)).Closed()])
  }

  // Lookup takes the entry under the mutex, then waits outside for `done`.
  function LookupEntry(t: Table, key: bytes): Option<nat> {
    if key in t.entries then Some(t.entries[key]) else None
  }

  lemma EvictValid(t: Table, now: int)
    requires t.Valid()
    ensures Evict(t, now).Valid()
    ensures forall i :: 0 <= i < |t.arena| ==>
              Evict(t, now).Live(i) == (t.Live(i) && now < t.arena[i].expires)
  {
  }

  // ----- what the table says about a key -----

  // The key has an entry that has not expired.
  predicate LiveKey(t: Table, key: bytes, now: int)
    requires t.Valid()
  {
    key in t.entries && now < t.arena[t.entries[key]].expires
  }

  function Held(t: Table, key: bytes): Entry
    requires t.Valid() && key in t.entries
  {
    t.arena[t.entries[key]]
  }

  lemma DuplicateIff(t: Table, key: bytes, now: int)
    requires t.Valid()
    ensures IsDuplicate(t, key, now) <==> LiveKey(t, key, now)
  {
  }

  lemma EvictIff(t: Table, now: int)
    requires t.Valid()
    ensures Evict(t, now).Valid() && Evict(t, now).ttl == t.ttl
    ensures forall k :: k in Evict(t, now).entries <==> LiveKey(t, k, now)
    ensures forall k :: LiveKey(t, k, now) ==> Held(Evict(t, now), k) == Held(t, k)
  {
    EvictValid(t, now);
    forall k | LiveKey(t, k, now)
      ensures Held(Evict(t, now), k) == Held(t, k)
    {
      assert Evict(t, now).arena[t.entries[k]] == EvictedEntry(t, now, t.entries[k]);
    }
  }

  lemma InsertIff(t: Table, key: bytes, now: int)
    requires t.Valid()
    ensures Insert(t, key, now).Valid() && Insert(t, key, now).ttl == t.ttl
    ensures forall k :: k in Insert(t, key, now).entries <==> k == key || k in t.entries
    ensures forall k :: k in t.entries ==> Held(Insert(t, key, now), k) == Held(t, k)
    ensures key !in t.entries ==> Held(Insert(t, key, now), key) == Entry(key, None, 0, now + t.ttl)
  {
  }

  // Seen keeps the entries that have not expired, as they are, drops all others, and
  // adds one for a key without a live entry: open, empty, with ttl to live.
  lemma SeenIff(t: Table, key: bytes, now: int)
    requires t.Valid()
    ensures AfterSeen(t, key, now).Valid() && AfterSeen(t, key, now).ttl == t.ttl
    ensures forall k :: k in AfterSeen(t, key, now).entries <==> k == key || LiveKey(t, k, now)
    ensures forall k :: LiveKey(t, k, now) ==> Held(AfterSeen(t, key, now), k) == Held(t, k)
    ensures !LiveKey(t, key, now) ==> Held(AfterSeen(t, key, now), key) == Entry(key, None, 0, now + t.ttl)
  {
    EvictIff(t, now);
    InsertIff(Evict(t, now), key, now);
    forall k | LiveKey(t, k, now)
      ensures Held(AfterSeen(t, key, now), k) == Held(t, k)
    {
    }
  }

  // Store fills the entry its key finds and closes its channel if that is still open;
  // no other key notices.
  lemma StoreIff(t: Table, key: bytes, reply: bytes)
    requires t.Valid()
    ensures AfterStore(t, key, reply).Valid() && AfterStore(t, key, reply).ttl == t.ttl
    ensures AfterStore(t, key, reply).entries == t.entries
    ensures forall k :: k in t.entries && k != key ==> Held(AfterStore(t, key, reply), k) == Held(t, k)
    ensures key in t.entries ==>
              (var e := Held(t, key);
               Held(AfterStore(t, key, reply), key)
               == Entry(key, if reply == [] then None else Some(reply), if e.closes == 0 then 1 else e.closes, e.expires))
  {
  }

  // Some keys of `was` are visited, `keys` are not; `t` is the table by then.
  ghost predicate Evicting(was: Table, t: Table, keys: set<bytes>, now: int)
    requires was.Valid()
  {
    && t.ttl == was.ttl && keys <= was.entries.Keys && |t.arena| == |was.arena|
    && (forall k :: k in t.entries <==> k in was.entries && (k in keys || now < was.arena[was.entries[k]].expires))
    && (forall k :: k in t.entries ==> t.entries[k] == was.entries[k])
    && (forall i :: 0 <= i < |was.arena| ==>
          t.arena[i] == if was.arena[i].key in keys then was.arena[i] else EvictedEntry(was, now, i))
  }

  // The loop body for key k.
  function EvictKey(t: Table, k: bytes, now: int): Table
    requires k in t.entries && t.entries[k] < |t.arena|
  {
    var i := t.entries[k];
    if now >= t.arena[i].expires then Table(t.ttl, t.entries - {k}, t.arena[i := t.arena[i].Closed()]) else t
  }

  lemma EvictKeyStep(was: Table, t: Table, keys: set<bytes>, k: bytes, now: int)
    requires was.Valid() && Evicting(was, t, keys, now) && k in keys
    ensures k in t.entries && t.entries[k] < |t.arena|
    ensures Evicting(was, EvictKey(t, k, now), keys - {k}, now)
  {
    var next := EvictKey(t, k, now);
    forall i | 0 <= i < |was.arena|
      ensures next.arena[i] == if was.arena[i].key in keys - {k} then was.arena[i] else EvictedEntry(was, now, i)
    {
    }
  }

  lemma EvictingStart(was: Table, now: int)
    requires was.Valid()
    ensures Evicting(was, was, was.entries.Keys, now)
  {
    forall i | 0 <= i < |was.arena|
      ensures was.arena[i] == if was.arena[i].key in was.entries.Keys then was.arena[i] else EvictedEntry(was, now, i)
    {
    }
  }

  lemma EvictingDone(was: Table, t: Table, now: int)
    requires was.Valid() && Evicting(was, t, {}, now)
    ensures t == Evict(was, now)
  {
    assert t.entries == Evict(was, now).entries;
    assert t.arena == Evict(was, now).arena;
  }

  // ----- the methods -----

  class Deduplicator {
    var ttl: int
    var entries: map<bytes, nat>
    var arena: seq<Entry>

    function View(): Table
      reads this
    {
      Table(ttl, entries, arena)
    }

    constructor (ttl: int)
      ensures View() == NewTable(ttl) && View().Valid()
    {
      this.ttl := if ttl <= 0 then DEFAULT_DEDUP_TTL else ttl;
      entries := map[];
      arena := [];
    }

    // One turn of the loop over the entries.
    method EvictOne(k: bytes, now: int)
      requires k in entries && entries[k] < |arena|
      modifies this
      ensures View() == EvictKey(old(View()), k, now)
    {
      var e := arena[entries[k]];
      if now >= e.expires {
        if !e.Done() {
          e := e.(closes := e.closes + 1);
        }
        arena := arena[entries[k] := e];
        entries := entries - {k};
      }
    }

    method EvictExpiredLocked(now: int)
      requires View().Valid()
      modifies this
      ensures View() == Evict(old(View()), now)
    {
      ghost var was := View();
      var keys := entries.Keys;
      EvictingStart(was, now);
      while keys != {}
        invariant Evicting(was, View(), keys, now)
        decreases |keys|
      {
        var k :| k in keys;
        EvictKeyStep(was, View(), keys, k, now);
        EvictOne(k, now);
        keys := keys - {k};
      }
      EvictingDone(was, View(), now);
    }

    method Seen(key: bytes, now: int) returns (duplicate: bool)
      requires View().Valid()
      modifies this
      ensures View() == AfterSeen(old(View()), key, now) && View().Valid()
      ensures duplicate == IsDuplicate(old(View()), key, now)
    {
      EvictValid(View(), now);
      EvictExpiredLocked(now);
      if key in entries {
        return true;
      }
      entries := entries[key := |arena|];
      arena := arena + [Entry(key, None, 0, now + ttl)];
      return false;
    }

    method Store(key: bytes, reply: bytes)
      requires View().Valid()
      modifies this
      ensures View() == AfterStore(old(View()), key, reply) && View().Valid()
    {
      if key !in entries {
        return;
      }
      var e := arena[entries[key]];
      e := e.(reply := if |reply| == 0 then None else Some(reply));
      if !e.Done() {
        e := e.(closes := e.closes + 1);
      }
      arena := arena[entries[key] := e];
    }

    // Returns only once the done channel of the entry it found is closed. (The comment
    // in the source says it returns at once while the handler is still running.)
    method Lookup(key: bytes) returns (reply: Option<bytes>)
      requires View().Valid()
      requires LookupEntry(View(), key).Some? ==> arena[LookupEntry(View(), key).value].Done()
      ensures reply == match LookupEntry(View(), key) { case Some(e) => arena[e].reply case None => None }
    {
      if key !in entries {
        return None;
      }
      return arena[entries[key]].reply;
    }

    method Cleanup(now: int)
      requires View().Valid()
      modifies this
      ensures View() == Evict(old(View()), now) && View().Valid()
    {
      EvictValid(View(), now);
      EvictExpiredLocked(now);
    }
  }

  // ----- keys -----

  // addr.String() cut to 128 octets, a NUL, the identifier.
  function DedupKey(addr: bytes, id: byte): bytes {
    (if |addr| > DEDUP_KEY_SIZE then addr[..DEDUP_KEY_SIZE] else addr) + [0, id]
  }

  // The default life of an entry is five seconds.
  lemma TtlIff(ttl: int, n: int)
    ensures NewTable(ttl).ttl == n <==> n == ttl > 0 || (ttl <= 0 && n == 5_000_000_000)
    ensures NewTable(ttl).entries == map[]
  {
  }

  // Two requests share a key exactly when identifier and the first 128 octets of
  // the address agree.
  lemma KeysCollideIff(a: bytes, i: byte, b: bytes, j: byte)
    ensures DedupKey(a, i) == DedupKey(b, j)
       <==> i == j && (if |a| > 128 then a[..128] else a) == (if |b| > 128 then b[..128] else b)
  {
    var x, y := DedupKey(a, i), DedupKey(b, j);
    if x == y {
      assert x[|x| - 1] == i && y[|y| - 1] == j;
      assert x[..|x| - 2] == y[..|y| - 2];
      assert x[..|x| - 2] == if |a| > DEDUP_KEY_SIZE then a[..DEDUP_KEY_SIZE] else a;
      assert y[..|y| - 2] == if |b| > DEDUP_KEY_SIZE then b[..DEDUP_KEY_SIZE] else b;
    }
  }
}
