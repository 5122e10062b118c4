// protocol/identifier.go: the pool of Identifiers, and every interleaving of callers
// that release what they acquired (protocol/client.go).
module Identifiers {
  import opened Bytes

  const CAPACITY := 256

  // Send on the buffered channel, or drop when it is full.
  function Put(tokens: seq<byte>, id: byte): seq<byte> {
    if |tokens| < CAPACITY then tokens + [id] else tokens
  }

  function AllIdentifiers(): (s: seq<byte>)
    ensures |s| == 256
  {
    seq(256, i requires 0 <= i < 256 => i as byte)
  }

  class IdentifierPool {
    var tokens: seq<byte>

    constructor ()
      ensures tokens == AllIdentifiers()
    {
      tokens := [];
      new;
      for i := 0 to 256
        invariant tokens == AllIdentifiers()[..i]
      {
        tokens := tokens + [i as byte];
      }
    }

    // A call on an empty pool returns only once it is canceled; when both a token and
    // the cancellation are there, `canceled` says which one the select took.
    method Acquire(canceled: bool) returns (r: Result<byte>)
      requires tokens != [] || canceled
      modifies this
      ensures canceled ==> r == Err(IdentifierExhausted) && tokens == old(tokens)
      ensures !canceled ==> r == Ok(old(tokens)[0]) && tokens == old(tokens)[1..]
    {
      if canceled {
        return Err(IdentifierExhausted);
      }
      r := Ok(tokens[0]);
      tokens := tokens[1..];
    }

    method Release(id: byte)
      modifies this
      ensures tokens == Put(old(tokens), id)
    {
      if |tokens| < CAPACITY {
        tokens := tokens + [id];
      }
    }
  }

  // ----- callers -----

  // The queue, and the Identifier each request in flight holds.
  datatype Pool = Pool(tokens: seq<byte>, held: map<nat, byte>)

  datatype Step = AcquireBy(caller: nat) | ReleaseBy(caller: nat)

  function NewPool(): Pool {
    Pool(AllIdentifiers(), map[])
  }

  predicate Enabled(p: Pool, a: Step) {
    match a
    case AcquireBy(c) => c !in p.held && p.tokens != []
    case ReleaseBy(c) => c in p.held
  }

  function Apply(p: Pool, a: Step): Pool
    requires Enabled(p, a)
  {
    match a
    case AcquireBy(c) => Pool(p.tokens[1..], p.held[c := p.tokens[0]])
    case ReleaseBy(c) => Pool(Put(p.tokens, p.held[c]), p.held - {c})
  }

  // How often an Identifier waits in the queue, and how often it is in flight.
  function Queued(p: Pool, id: byte): nat {
    multiset(p.tokens)[id]
  }

  function Holders(held: map<nat, byte>, id: byte): set<nat> {
    set c | c in held && held[c] == id
  }

  // Queue and requests in flight together are a permutation of 0..255.
  ghost predicate Conserved(p: Pool) {
    forall id: byte :: Queued(p, id) + |Holders(p.held, id)| == 1
  }

  ghost predicate Inv(p: Pool) {
    Conserved(p) && |p.tokens| + |p.held| == CAPACITY
  }

  lemma {:induction false} PrefixCount(n: nat, id: byte)
    requires n <= 256
    ensures multiset(AllIdentifiers()[..n])[id] == if id as int < n then 1 else 0
  {
    if n > 0 {
      PrefixCount(n - 1, id);
      assert AllIdentifiers()[..n] == AllIdentifiers()[..n - 1] + [(n - 1) as byte];
    } else {
      assert AllIdentifiers()[..0] == [];
    }
  }

  lemma NewPoolInv()
    ensures Inv(NewPool())
  {
    forall id: byte
      ensures Queued(NewPool(), id) + |Holders(NewPool().held, id)| == 1
    {
      PrefixCount(256, id);
      assert AllIdentifiers()[..256] == AllIdentifiers();
      assert Holders(NewPool().held, id) == {};
    }
  }

  lemma HeadCount(s: seq<byte>, id: byte)
    requires s != []
    ensures multiset(s)[id] == multiset(s[1..])[id] + if id == s[0] then 1 else 0
  {
    assert s == [s[0]] + s[1..];
  }

  lemma AddHolder(held: map<nat, byte>, c: nat, x: byte, id: byte)
    requires c !in held
    ensures |Holders(held[c := x], id)| == |Holders(held, id)| + if id == x then 1 else 0
  {
    if id == x {
      assert Holders(held[c := x], id) == Holders(held, id) + {c};
    } else {
      assert Holders(held[c := x], id) == Holders(held, id);
    }
  }

  lemma RemoveHolder(held: map<nat, byte>, c: nat, id: byte)
    requires c in held
    ensures |Holders(held, id)| == |Holders(held - {c}, id)| + if id == held[c] then 1 else 0
  {
    if id == held[c] {
      assert Holders(held, id) == Holders(held - {c}, id) + {c};
    } else {
      assert Holders(held, id) == Holders(held - {c}, id);
    }
  }

  lemma AcquireCounts(p: Pool, c: nat, id: byte)
    requires Enabled(p, AcquireBy(c))
    ensures (var n := Apply(p, AcquireBy(c));
             Queued(n, id) + |Holders(n.held, id)| == Queued(p, id) + |Holders(p.held, id)|)
  {
    HeadCount(p.tokens, id);
    AddHolder(p.held, c, p.tokens[0], id);
  }

  lemma ReleaseCounts(p: Pool, c: nat, id: byte)
    requires Enabled(p, ReleaseBy(c)) && |p.tokens| < CAPACITY
    ensures (var n := Apply(p, ReleaseBy(c));
             Queued(n, id) + |Holders(n.held, id)| == Queued(p, id) + |Holders(p.held, id)|)
  {
    RemoveHolder(p.held, c, id);
  }

  lemma HeldSize(p: Pool, a: Step)
    requires Enabled(p, a)
    ensures |Apply(p, a).held| == if a.AcquireBy? then |p.held| + 1 else |p.held| - 1
  {
    var n := Apply(p, a);
    if a.AcquireBy? {
      assert n.held.Keys == p.held.Keys + {a.caller};
    } else {
      assert p.held.Keys == n.held.Keys + {a.caller};
    }
    assert |n.held.Keys| == |n.held| && |p.held.Keys| == |p.held|;
  }

  lemma StepKeepsInv(p: Pool, a: Step)
    requires Inv(p) && Enabled(p, a)
    ensures Inv(Apply(p, a))
    ensures a.ReleaseBy? ==> |p.tokens| < CAPACITY
  {
    HeldSize(p, a);
    if a.ReleaseBy? {
      assert |p.held.Keys| == |p.held| && a.caller in p.held.Keys;
    }
    forall id: byte
      ensures Queued(Apply(p, a), id) + |Holders(Apply(p, a).held, id)| == 1
    {
      assert Queued(p, id) + |Holders(p.held, id)| == 1;
      if a.AcquireBy? {
        AcquireCounts(p, a.caller, id);
      } else {
        ReleaseCounts(p, a.caller, id);
      }
    }
  }

  // ----- runs -----

  ghost predicate Next(p: Pool, a: Step, n: Pool) {
    Enabled(p, a) && n == Apply(p, a)
  }

  ghost predicate IsRun(ps: seq<Pool>, acts: seq<Step>) {
    |ps| == |acts| + 1 && ps[0] == NewPool()
    && forall i :: 0 <= i < |acts| ==> Next(ps[i], acts[i], ps[i + 1])
  }

  lemma {:induction false} RunInv(ps: seq<Pool>, acts: seq<Step>, i: nat)
    requires IsRun(ps, acts) && i <= |acts|
    ensures Inv(ps[i])
  {
    if i == 0 {
      NewPoolInv();
    } else {
      RunInv(ps, acts, i - 1);
      assert Next(ps[i - 1], acts[i - 1], ps[i]);
      StepKeepsInv(ps[i - 1], acts[i - 1]);
    }
  }

  lemma TwoHolders(p: Pool, c: nat, d: nat)
    requires Conserved(p) && c in p.held && d in p.held && c != d
    ensures p.held[c] != p.held[d]
  {
    var id := p.held[c];
    assert Queued(p, id) + |Holders(p.held, id)| == 1;
    if p.held[d] == id {
      SubsetSize({c, d}, Holders(p.held, id));
    }
  }

  lemma SubsetSize<T>(a: set<T>, b: set<T>)
    requires a <= b
    ensures |a| <= |b|
  {
    assert b == a + (b - a);
  }

  // No two requests in flight share an Identifier, at any point of any run.
  lemma NoSharedIdentifier(ps: seq<Pool>, acts: seq<Step>, i: nat, c: nat, d: nat)
    requires IsRun(ps, acts) && i <= |acts|
    requires c in ps[i].held && d in ps[i].held && c != d
    ensures ps[i].held[c] != ps[i].held[d]
  {
    RunInv(ps, acts, i);
    TwoHolders(ps[i], c, d);
  }

  // Release never takes its overflow branch.
  lemma ReleaseNeverDrops(ps: seq<Pool>, acts: seq<Step>, i: nat)
    requires IsRun(ps, acts) && i < |acts| && acts[i].ReleaseBy?
    ensures Enabled(ps[i], acts[i]) && ps[i + 1].tokens == ps[i].tokens + [ps[i].held[acts[i].caller]]
  {
    RunInv(ps, acts, i);
    assert Next(ps[i], acts[i], ps[i + 1]);
    StepKeepsInv(ps[i], acts[i]);
  }

  // A caller without an Identifier is blocked exactly when all 256 are in flight.
  lemma BlockedIff(ps: seq<Pool>, acts: seq<Step>, i: nat, c: nat)
    requires IsRun(ps, acts) && i <= |acts| && c !in ps[i].held
    ensures !Enabled(ps[i], AcquireBy(c)) <==> |ps[i].held| == CAPACITY
    ensures !Enabled(ps[i], AcquireBy(c)) <==> forall id: byte :: Holders(ps[i].held, id) != {}
  {
    RunInv(ps, acts, i);
    var p := ps[i];
    if p.tokens == [] {
      forall id: byte
        ensures Holders(p.held, id) != {}
      {
        assert Queued(p, id) + |Holders(p.held, id)| == 1;
      }
    } else {
      var id := p.tokens[0];
      assert Queued(p, id) + |Holders(p.held, id)| == 1 && Queued(p, id) >= 1;
      assert Holders(p.held, id) == {};
    }
  }

  // The comment on Release warns against giving back what was not acquired. A stray
  // release does no harm exactly when nothing is in flight and the pool is full.
  lemma StrayReleaseHarmlessIff(p: Pool, id: byte)
    requires Inv(p)
    ensures Conserved(p.(tokens := Put(p.tokens, id))) <==> p.held == map[]
  {
    var n := p.(tokens := Put(p.tokens, id));
    assert Queued(p, id) + |Holders(p.held, id)| == 1;
    assert Holders(n.held, id) == Holders(p.held, id);
    if |p.tokens| < CAPACITY {
      assert multiset(n.tokens)[id] == multiset(p.tokens)[id] + 1;
      assert p.held != map[];
      assert Queued(n, id) + |Holders(n.held, id)| == 2;
    } else {
      assert n == p;
      assert |p.held.Keys| == 0;
      assert p.held.Keys == {};
      assert p.held == map[];
    }
  }
}
