// protocol/retransmit.go: the retransmission delays, in wrapping int64 arithmetic.
// Durations are counted in nanoseconds.
module Backoff {
  import opened Bytes

  const TWO_TO_63: int := 0x8000_0000_0000_0000
  const TWO_TO_64: int := 0x1_0000_0000_0000_0000

  newtype int64 = x: int | -0x8000_0000_0000_0000 <= x < 0x8000_0000_0000_0000

  // Jitter is zero here.
  datatype RetransmitPolicy = RetransmitPolicy(maxAttempts: int, initial: int64, max: int64)

  const SECOND: int64 := 1_000_000_000
  const DEFAULT_POLICY := RetransmitPolicy(3, 2 * SECOND, 16 * SECOND)

  // The low 64 bits, as a signed number.
  function Wrap(x: int): (w: int64) {
    ((x + TWO_TO_63) % TWO_TO_64 - TWO_TO_63) as int64
  }

  function NextDelay(p: RetransmitPolicy, attempt: int): int64 {
    var k: nat := if attempt < 0 then 0 else attempt;
    var base := Wrap(p.initial as int * Pow2(k));
    if base <= 0 || base > p.max then p.max else base
  }

  function Attempts(p: RetransmitPolicy): (n: int)
    ensures n == if p.maxAttempts > 0 then p.maxAttempts else 3
  {
    if p.maxAttempts <= 0 then DEFAULT_POLICY.maxAttempts else p.maxAttempts
  }

  // What the comment on NextDelay promises, in unbounded arithmetic.
  function Intended(p: RetransmitPolicy, k: nat): int {
    var base := p.initial as int * Pow2(k);
    if base > p.max as int then p.max as int else base
  }

  // ----- powers of two -----

  lemma {:induction false} PowAdd(a: nat, b: nat)
    ensures Pow2(a + b) == Pow2(a) * Pow2(b)
  {
    if a > 0 {
      PowAdd(a - 1, b);
      assert Pow2(a + b) == 2 * (Pow2(a - 1) * Pow2(b));
    }
  }

  lemma PowLarge()
    ensures Pow2(10) == 1024 && Pow2(63) == TWO_TO_63 && Pow2(64) == TWO_TO_64
  {
    assert Pow2(4) == 16 && Pow2(2) == 4;
    PowAdd(4, 4);
    PowAdd(8, 2);
    PowAdd(8, 8);
    PowAdd(16, 16);
    PowAdd(32, 32);
    assert Pow2(64) == 2 * Pow2(63);
  }

  lemma {:induction false} PowMonotone(a: nat, b: nat)
    requires a <= b
    ensures Pow2(a) <= Pow2(b)
    decreases b - a
  {
    if a < b {
      PowMonotone(a, b - 1);
    }
  }

  // ----- wrapping -----

  lemma WrapExact(x: int)
    ensures Wrap(x) as int == x <==> -TWO_TO_63 <= x < TWO_TO_63
  {
  }

  lemma WrapQuotient(x: int) returns (t: int)
    ensures Wrap(x) as int == x - TWO_TO_64 * t
  {
    t := (x + TWO_TO_63) / TWO_TO_64;
  }

  // A multiple of 2^e wraps to a multiple of 2^e, for every e up to 64.
  lemma WrapMultiple(o: int, e: nat) returns (q: int)
    requires e <= 64
    ensures Wrap(o * Pow2(e)) as int == q * Pow2(e)
  {
    var t := WrapQuotient(o * Pow2(e));
    PowLarge();
    PowAdd(64 - e, e);
    q := o - Pow2(64 - e) * t;
    Distribute(o, Pow2(64 - e), t, Pow2(e));
  }

  lemma Distribute(o: int, a: int, t: int, b: int)
    ensures (o - a * t) * b == o * b - a * b * t
  {
  }

  lemma WrapWhole(n: int)
    ensures Wrap(n * TWO_TO_64) == 0
  {
  }

  // From 64 bits of shift on, nothing is left.
  lemma ShiftedOut(o: int, e: nat)
    requires e >= 64
    ensures Wrap(o * Pow2(e)) == 0
  {
    calc {
      o * Pow2(e);
      { PowAdd(e - 64, 64); }
      o * (Pow2(e - 64) * Pow2(64));
      { PowLarge(); }
      o * (Pow2(e - 64) * TWO_TO_64);
      { Regroup(o, Pow2(e - 64), TWO_TO_64); }
      (o * Pow2(e - 64)) * TWO_TO_64;
    }
    WrapWhole(o * Pow2(e - 64));
  }

  lemma Regroup(a: int, b: int, c: int)
    ensures a * (b * c) == (a * b) * c
  {
  }

  // A positive remainder of a shift that overflowed is at least 2^e.
  lemma WrappedIsLarge(o: int, e: nat)
    requires Wrap(o * Pow2(e)) > 0
    ensures Wrap(o * Pow2(e)) as int >= Pow2(e)
  {
    if e >= 64 {
      ShiftedOut(o, e);
    } else {
      var q := WrapMultiple(o, e);
      AtLeastOnce(q, Pow2(e));
    }
  }

  lemma Sign(a: int, b: int)
    requires b > 0
    ensures a * b > 0 <==> a > 0
  {
    if a <= 0 {
      assert a * b <= 0;
    }
  }

  lemma AtLeastOnce(q: int, p: int)
    requires p > 0 && q * p > 0
    ensures q * p >= p
  {
    Sign(q, p);
    assert (q - 1) * p >= 0;
  }

  // ----- when the delay is what it should be -----

  // No overflow, or one that the cap hides.
  predicate Safe(p: RetransmitPolicy, k: nat) {
    var shifted := p.initial as int * Pow2(k);
    shifted < TWO_TO_63 || Wrap(shifted) <= 0 || Wrap(shifted) >= p.max
  }

  lemma DelayAsIntendedIff(p: RetransmitPolicy, k: nat)
    requires p.initial > 0
    ensures NextDelay(p, k) as int == Intended(p, k) <==> Safe(p, k)
  {
    var shifted := p.initial as int * Pow2(k);
    Sign(p.initial as int, Pow2(k));
    WrapExact(shifted);
  }

  // A negative attempt counts as the first one, and an Initial of zero gives Max at once.
  lemma EdgeDelays(p: RetransmitPolicy, attempt: int)
    ensures attempt <= 0 ==> NextDelay(p, attempt) == NextDelay(p, 0)
    ensures p.initial == 0 ==> NextDelay(p, attempt) == p.max
    ensures p.initial > 0 ==> NextDelay(p, 0) == if p.initial <= p.max then p.initial else p.max
  {
    WrapExact(p.initial as int);
  }

  // Shifts of 64 and more are always capped, so checking the first 64 delays settles
  // all of them.
  lemma BackoffCorrectIff(p: RetransmitPolicy)
    requires p.initial > 0
    ensures (forall k: nat :: NextDelay(p, k) as int == Intended(p, k)) <==> (forall k: nat :: k < 64 ==> Safe(p, k))
  {
    forall k: nat
      ensures NextDelay(p, k) as int == Intended(p, k) <==> Safe(p, k)
      ensures k >= 64 ==> Safe(p, k)
    {
      DelayAsIntendedIff(p, k);
      if k >= 64 { ShiftedOut(p.initial as int, k); }
    }
  }

  // A bound that can be read off the policy: with 2^j dividing Initial, the rest of
  // Initial times Max stays below 2^63.
  predicate WellScaled(p: RetransmitPolicy, j: nat) {
    p.initial > 0 && p.initial as int % Pow2(j) == 0 && p.initial as int / Pow2(j) * p.max as int < TWO_TO_63
  }

  lemma {:induction false} WellScaledIsSafe(p: RetransmitPolicy, j: nat, k: nat)
    requires WellScaled(p, j)
    ensures Safe(p, k)
  {
    var o, e := p.initial as int / Pow2(j), j + k;
    PowAdd(j, k);
    Exact(p.initial as int, Pow2(j));
    Regroup(o, Pow2(j), Pow2(k));
    assert p.initial as int * Pow2(k) == o * Pow2(e);
    if o * Pow2(e) >= TWO_TO_63 && Wrap(o * Pow2(e)) > 0 {
      WrappedIsLarge(o, e);
      Cancel(o, p.max as int, Pow2(e));
    }
  }

  lemma Exact(n: int, d: int)
    requires d > 0 && n % d == 0
    ensures n == n / d * d
  {
  }

  lemma Cancel(o: int, a: int, b: int)
    requires o * a < o * b && b > 0 && o * b > 0
    ensures a < b
  {
    Sign(o, b);
    Sign(b - a, o);
    assert (b - a) * o == o * b - o * a;
  }

  // Then every delay is Initial doubled k times, capped at Max, and delays never shrink.
  lemma BackoffAsDocumented(p: RetransmitPolicy, j: nat, k: nat)
    requires WellScaled(p, j)
    ensures NextDelay(p, k) as int == Intended(p, k)
    ensures NextDelay(p, k) <= NextDelay(p, k + 1)
    ensures p.max > 0 ==> 0 < NextDelay(p, k) <= p.max
  {
    WellScaledIsSafe(p, j, k);
    WellScaledIsSafe(p, j, k + 1);
    DelayAsIntendedIff(p, k);
    DelayAsIntendedIff(p, k + 1);
    Sign(p.initial as int, Pow2(k));
    Twice(p.initial as int, Pow2(k));
  }

  lemma Twice(a: int, b: int)
    ensures a * (2 * b) == 2 * (a * b)
  {
  }

  lemma DefaultIsWellScaled()
    ensures WellScaled(DEFAULT_POLICY, 10)
  {
    PowLarge();
  }

  // The default policy: 2 s, 4 s, 8 s, then 16 s for good.
  lemma DefaultBackoff(k: nat)
    ensures WellScaled(DEFAULT_POLICY, 10)
    ensures NextDelay(DEFAULT_POLICY, k) == if k == 0 then 2 * SECOND else if k == 1 then 4 * SECOND
                                            else if k == 2 then 8 * SECOND else 16 * SECOND
  {
    DefaultIsWellScaled();
    BackoffAsDocumented(DEFAULT_POLICY, 10, k);
    if k >= 3 {
      PowMonotone(3, k);
      assert Pow2(3) == 8;
    }
  }

  // A policy beyond the bound whose delay collapses: the second shift wraps 2^62 + 1
  // around to 4 nanoseconds, where the cap of 2^62 was due.
  lemma WrappedDelay()
    ensures (var p := RetransmitPolicy(3, 0x4000_0000_0000_0001, 0x4000_0000_0000_0000);
             NextDelay(p, 2) == 4 && Intended(p, 2) == 0x4000_0000_0000_0000)
  {
    assert Pow2(2) == 4;
  }
}
