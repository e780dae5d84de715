/** The token bucket behind the per-source limiter, the SYN limiter and the QoS classes,
    with the source's 64-bit and 32-bit wrap-around written out. */
module TokenBucket {
  import opened Types

  const MAX_WINDOW := 1_000_000_000_000

  datatype Bucket = Bucket(last: u64, tokens: u32)

  /** Whole tokens earned in `elapsed` ns: the window is clamped and the product may wrap. */
  function Earned(elapsed: u64, rate: u32): u64 {
    (Min(elapsed, MAX_WINDOW) * rate) % TWO_64 / NANOS_PER_SEC
  }

  function Refill(b: Bucket, now: u64, rate: u32, cap: u32): Bucket {
    if now > b.last then
      var add := Min(Earned(now - b.last, rate), (cap - b.tokens) % TWO_64);
      Bucket(now, (b.tokens + add) % TWO_32)
    else b
  }

  /** Refills, then takes `cost` tokens if they are there. */
  function Take(b: Bucket, now: u64, rate: u32, cap: u32, cost: u32): (Bucket, bool) {
    var filled := Refill(b, now, rate, cap);
    if filled.tokens < cost then (filled, false)
    else (filled.(tokens := filled.tokens - cost), true)
  }

  datatype Request = Request(now: u64, cost: u32)

  /** The total cost let through when the requests are put to the bucket in order. */
  function Passed(b: Bucket, reqs: seq<Request>, rate: u32, cap: u32): nat
    decreases |reqs|
  {
    if reqs == [] then 0
    else
      var (next, ok) := Take(b, reqs[0].now, rate, cap, reqs[0].cost);
      (if ok then reqs[0].cost else 0) + Passed(next, reqs[1..], rate, cap)
  }

  ghost predicate InWindow(reqs: seq<Request>, from: u64, to: u64) {
    && (forall i | 0 <= i < |reqs| :: from <= reqs[i].now <= to)
    && (forall i, j | 0 <= i <= j < |reqs| :: reqs[i].now <= reqs[j].now)
  }

  /** Clamping and wrapping only lose tokens. */
  lemma EarnedAtMostRate(elapsed: u64, rate: u32)
    ensures Earned(elapsed, rate) * NANOS_PER_SEC <= elapsed * rate
  {
    var e := Min(elapsed, MAX_WINDOW);
    var p := e * rate;
    assert p >= 0;
    assert p % TWO_64 <= p;
    assert e * rate <= elapsed * rate;
  }

  /** With no more tokens than the capacity there is no wrap-around: the refill adds what was earned, up to
      the capacity. */
  lemma RefillExact(tokens: u32, cap: u32, earned: nat)
    requires tokens <= cap
    ensures (tokens + Min(earned, (cap - tokens) % TWO_64)) % TWO_32 == Min(tokens + earned, cap)
  {
    assert (cap - tokens) % TWO_64 == cap - tokens;
  }

  lemma RefillAtMostRate(b: Bucket, now: u64, rate: u32, cap: u32)
    requires b.tokens <= cap
    ensures Refill(b, now, rate, cap).tokens <= cap
    ensures now > b.last ==>
              Refill(b, now, rate, cap).tokens * NANOS_PER_SEC <= b.tokens * NANOS_PER_SEC + (now - b.last) * rate
  {
    if now > b.last {
      var earned := Earned(now - b.last, rate);
      EarnedAtMostRate(now - b.last, rate);
      RefillExact(b.tokens, cap, earned);
    }
  }

  lemma TakeKeepsCap(b: Bucket, now: u64, rate: u32, cap: u32, cost: u32)
    requires b.tokens <= cap
    ensures Take(b, now, rate, cap, cost).0.tokens <= cap
  {
    RefillAtMostRate(b, now, rate, cap);
  }

  /** Earnings over adjoining spans add up to no more than the earnings over a span holding both. */
  lemma SpansAdd(from: int, a: int, b: int, to: int, rate: nat)
    requires from <= a <= b <= to
    ensures 0 <= (b - a) * rate && 0 <= (to - b) * rate
    ensures (b - a) * rate + (to - b) * rate <= (to - from) * rate
  {
    assert (b - a) * rate + (to - b) * rate == (to - a) * rate;
    assert (a - from) * rate + (to - a) * rate == (to - from) * rate;
  }

  /** From a bucket last filled at or after `from`, the tokens in hand plus the rate bound what passes. */
  lemma {:induction false} PassedFromBalance(b: Bucket, reqs: seq<Request>, rate: u32, cap: u32, from: u64, to: u64)
    requires b.tokens <= cap && from <= b.last && from <= to && InWindow(reqs, from, to)
    ensures Passed(b, reqs, rate, cap) * NANOS_PER_SEC <= b.tokens * NANOS_PER_SEC + (to - from) * rate
    decreases |reqs|
  {
    if reqs == [] {
      SpansAdd(from, from, from, to, rate);
    } else {
      var t := reqs[0].now;
      var next := Take(b, t, rate, cap, reqs[0].cost).0;
      RefillAtMostRate(b, t, rate, cap);
      if t > b.last {
        PassedFromBalance(next, reqs[1..], rate, cap, t, to);
        SpansAdd(from, b.last, t, to, rate);
      } else {
        PassedFromBalance(next, reqs[1..], rate, cap, from, to);
      }
    }
  }

  /** Filling a bucket at the time of the first request changes nothing for the requests. */
  lemma FilledFirst(b: Bucket, reqs: seq<Request>, rate: u32, cap: u32)
    requires reqs != [] && b.last < reqs[0].now
    ensures Passed(Refill(b, reqs[0].now, rate, cap), reqs, rate, cap) == Passed(b, reqs, rate, cap)
  {
    var t := reqs[0].now;
    var filled := Refill(b, t, rate, cap);
    assert Take(filled, t, rate, cap, reqs[0].cost) == Take(b, t, rate, cap, reqs[0].cost);
  }

  lemma PassedFromCap(b: Bucket, reqs: seq<Request>, rate: u32, cap: u32, from: u64, to: u64)
    requires b.tokens <= cap && from <= to && InWindow(reqs, from, to) && reqs != []
    ensures Passed(b, reqs, rate, cap) * NANOS_PER_SEC <= cap * NANOS_PER_SEC + (to - from) * rate
  {
    var t := reqs[0].now;
    if b.last < t {
      var filled := Refill(b, t, rate, cap);
      RefillAtMostRate(b, t, rate, cap);
      FilledFirst(b, reqs, rate, cap);
      PassedFromBalance(filled, reqs, rate, cap, from, to);
    } else {
      PassedFromBalance(b, reqs, rate, cap, from, to);
    }
  }

  /** The window bound: a full bucket and the rate over the window, whatever came before and
      even where the product of the refill wraps. */
  lemma WindowBound(b: Bucket, reqs: seq<Request>, rate: u32, cap: u32, from: u64, to: u64)
    requires b.tokens <= cap && from <= to && InWindow(reqs, from, to)
    ensures Passed(b, reqs, rate, cap) <= cap + (to - from) * rate / NANOS_PER_SEC
  {
    SpansAdd(from, from, from, to, rate);
    if reqs != [] { PassedFromCap(b, reqs, rate, cap, from, to); }
    DivideBound(Passed(b, reqs, rate, cap), cap, (to - from) * rate);
  }

  lemma DivideBound(passed: nat, cap: nat, x: int)
    requires passed * NANOS_PER_SEC <= cap * NANOS_PER_SEC + x
    ensures passed <= cap + x / NANOS_PER_SEC
  {
  }

  // ---------------------------------------------------------------- when the bound holds

  ghost predicate BoundHolds(b: Bucket, rate: u32, cap: u32) {
    forall reqs, from: u64, to: u64 | from <= to && InWindow(reqs, from, to) :: Bounded(b, reqs, rate, cap, to - from)
  }

  predicate Bounded(b: Bucket, reqs: seq<Request>, rate: u32, cap: u32, span: nat) {
    Passed(b, reqs, rate, cap) <= cap + span * rate / NANOS_PER_SEC
  }

  /** The window bound holds, for all requests in all windows, exactly from the buckets that are not
      overfull. A burst configured below the tokens in hand breaks it. */
  lemma BoundHoldsIff(b: Bucket, rate: u32, cap: u32)
    ensures BoundHolds(b, rate, cap) <==> b.tokens <= cap
  {
    if b.tokens <= cap {
      forall reqs, from: u64, to: u64 | from <= to && InWindow(reqs, from, to)
        ensures Bounded(b, reqs, rate, cap, to - from)
      {
        WindowBound(b, reqs, rate, cap, from, to);
      }
    } else {
      var all := [Request(b.last, b.tokens)];
      assert Passed(b, all, rate, cap) == b.tokens by {
        assert Take(b, b.last, rate, cap, b.tokens).1 && all[1..] == [];
      }
      assert InWindow(all, b.last, b.last) && !Bounded(b, all, rate, cap, b.last - b.last);
    }
  }

  function Units(now: u64, n: nat): (reqs: seq<Request>)
    ensures |reqs| == n
  {
    if n == 0 then [] else [Request(now, 1)] + Units(now, n - 1)
  }

  lemma {:induction false} UnitsPass(b: Bucket, n: nat, rate: u32, cap: u32)
    requires n <= b.tokens
    ensures Passed(b, Units(b.last, n), rate, cap) == n
    ensures forall r | r in Units(b.last, n) :: r == Request(b.last, 1)
    decreases n
  {
    if n > 0 {
      var next := Take(b, b.last, rate, cap, 1).0;
      assert next == Bucket(b.last, b.tokens - 1) && Units(b.last, n)[1..] == Units(b.last, n - 1);
      UnitsPass(next, n - 1, rate, cap);
    }
  }

  ghost predicate UnitBoundHolds(b: Bucket, rate: u32, cap: u32) {
    forall reqs: seq<Request>, from: u64, to: u64
      | from <= to && InWindow(reqs, from, to) && (forall r | r in reqs :: r.cost == 1)
      :: Bounded(b, reqs, rate, cap, to - from)
  }

  /** The same with requests for one token each, as the source and SYN limiters make them. */
  lemma UnitBoundHoldsIff(b: Bucket, rate: u32, cap: u32)
    ensures UnitBoundHolds(b, rate, cap) <==> b.tokens <= cap
  {
    if b.tokens <= cap {
      BoundHoldsIff(b, rate, cap);
    } else {
      var all := Units(b.last, b.tokens);
      UnitsPass(b, b.tokens, rate, cap);
      forall i | 0 <= i < |all| ensures all[i] == Request(b.last, 1) { assert all[i] in all; }
      assert InWindow(all, b.last, b.last) && !Bounded(b, all, rate, cap, b.last - b.last);
    }
  }

  /** Likewise the cap: refills stay within it, at every time, exactly from those buckets. */
  lemma CapHoldsIff(b: Bucket, rate: u32, cap: u32)
    ensures (forall now: u64 :: Refill(b, now, rate, cap).tokens <= cap) <==> b.tokens <= cap
  {
    if b.tokens <= cap {
      forall now: u64 ensures Refill(b, now, rate, cap).tokens <= cap {
        RefillAtMostRate(b, now, rate, cap);
      }
    } else {
      assert Refill(b, b.last, rate, cap).tokens > cap;
    }
  }

  /** An overfull bucket is not capped at all: the capacity is underflowed and everything earned is added. */
  lemma OverfullRefill(b: Bucket, now: u64, rate: u32, cap: u32)
    requires b.tokens > cap && now > b.last
    ensures Refill(b, now, rate, cap).tokens == (b.tokens + Earned(now - b.last, rate)) % TWO_32
  {
    assert (cap - b.tokens) % TWO_64 == TWO_64 + cap - b.tokens;
    assert Earned(now - b.last, rate) <= TWO_64 / NANOS_PER_SEC;
  }

  // ---------------------------------------------------------------- wrapped products

  const MAX_EXACT_RATE := 18_446_744

  /** The product of the refill fits 64 bits, for every elapsed time, exactly up to 18,446,744 tokens a second. */
  lemma ProductFitsIff(rate: u32)
    ensures (forall e: u64 :: Min(e, MAX_WINDOW) * rate < TWO_64) <==> rate <= MAX_EXACT_RATE
  {
    if rate <= MAX_EXACT_RATE {
      forall e: u64 ensures Min(e, MAX_WINDOW) * rate < TWO_64 {
        assert Min(e, MAX_WINDOW) * rate <= MAX_WINDOW * MAX_EXACT_RATE;
      }
    } else {
      var e: u64 := MAX_WINDOW;
      assert Min(e, MAX_WINDOW) * rate >= MAX_WINDOW * (MAX_EXACT_RATE + 1);
    }
  }

  // ---------------------------------------------------------------- lost fractions

  /** A refill after a gap earns anything at all exactly when the gap is long enough for a whole token. */
  lemma EarnsIff(gap: u64, rate: u32)
    requires rate <= MAX_EXACT_RATE && gap <= MAX_WINDOW
    ensures Earned(gap, rate) > 0 <==> gap * rate >= NANOS_PER_SEC
  {
    ProductFitsIff(rate);
    assert Min(gap, MAX_WINDOW) * rate == gap * rate;
  }

  /** Every request comes too soon after the one before to earn a whole token. */
  predicate SlowGaps(last: u64, reqs: seq<Request>, rate: u32)
    decreases |reqs|
  {
    reqs != [] ==>
      (reqs[0].now - last) * rate < NANOS_PER_SEC && SlowGaps(Max(last, reqs[0].now), reqs[1..], rate)
  }

  lemma NothingEarned(elapsed: u64, rate: u32)
    requires elapsed * rate < NANOS_PER_SEC
    ensures Earned(elapsed, rate) == 0
  {
    EarnedAtMostRate(elapsed, rate);
  }

  /** So a source that asks too often starves, however long it goes on: every refill moves the clock and
      drops the fraction, and only the tokens in hand are ever passed. */
  lemma {:induction false} BusySourceStarves(b: Bucket, reqs: seq<Request>, rate: u32, cap: u32)
    requires SlowGaps(b.last, reqs, rate)
    ensures Passed(b, reqs, rate, cap) <= b.tokens
    decreases |reqs|
  {
    if reqs != [] {
      EarlyTake(b, reqs[0], rate, cap);
      BusySourceStarves(Take(b, reqs[0].now, rate, cap, reqs[0].cost).0, reqs[1..], rate, cap);
    }
  }

  lemma EarlyTake(b: Bucket, r: Request, rate: u32, cap: u32)
    requires (r.now - b.last) * rate < NANOS_PER_SEC
    ensures var (next, ok) := Take(b, r.now, rate, cap, r.cost);
            next.last == Max(b.last, r.now) && next.tokens == b.tokens - (if ok then r.cost else 0)
  {
    if r.now > b.last { NothingEarned(r.now - b.last, rate); }
  }

  // ---------------------------------------------------------------- what a bucket gives

  /** What a time earns while the product fits: the rate over it, in whole tokens, for 1000 seconds at most. */
  lemma EarnedExactly(elapsed: u64, rate: u32)
    requires rate <= 18_446_744
    ensures Earned(elapsed, rate) == Min(elapsed, 1_000_000_000_000) * rate / 1_000_000_000
  {
    ProductFitsIff(rate);
  }

  /** A refill adds what was earned since the last, up to the capacity, and moves the clock. */
  lemma RefillGives(b: Bucket, now: u64, rate: u32, cap: u32)
    requires b.tokens <= cap
    ensures var r := Refill(b, now, rate, cap);
            && r.last == Max(b.last, now)
            && r.tokens == if now > b.last then Min(b.tokens + Earned(now - b.last, rate), cap) else b.tokens
  {
    if now > b.last { RefillExact(b.tokens, cap, Earned(now - b.last, rate)); }
  }

  /** A take succeeds exactly when the refilled bucket holds the cost, and then it is gone from the bucket. */
  lemma TakeIff(b: Bucket, now: u64, rate: u32, cap: u32, cost: u32)
    ensures var (r, ok) := Take(b, now, rate, cap, cost);
            var tokens := Refill(b, now, rate, cap).tokens;
            && (ok <==> cost <= tokens)
            && r.last == Refill(b, now, rate, cap).last && r.tokens + (if ok then cost else 0) == tokens
  {
  }

  /** Every request, for one token, comes late enough after the one before to earn it. */
  predicate WideGaps(last: u64, reqs: seq<Request>, rate: u32)
    decreases |reqs|
  {
    reqs != [] ==>
      && reqs[0].cost == 1 && reqs[0].now > last && (reqs[0].now - last) * rate >= NANOS_PER_SEC
      && WideGaps(reqs[0].now, reqs[1..], rate)
  }

  lemma WideGapEarns(gap: u64, rate: u32)
    requires rate <= 18_446_744 && gap * rate >= NANOS_PER_SEC
    ensures Earned(gap, rate) >= 1
  {
    EarnedExactly(gap, rate);
    var clamped: int := Min(gap, 1_000_000_000_000);
    assert rate > 0 && clamped * rate >= NANOS_PER_SEC by {
      if clamped != gap { assert 1_000_000_000_000 * rate >= 1_000_000_000_000; }
    }
  }

  /** A source that keeps to its rate is never stopped: with such gaps every request passes. */
  lemma {:induction false} SlowSourcePasses(b: Bucket, reqs: seq<Request>, rate: u32, cap: u32)
    requires 1 <= cap && b.tokens <= cap && rate <= 18_446_744 && WideGaps(b.last, reqs, rate)
    ensures Passed(b, reqs, rate, cap) == |reqs|
    decreases |reqs|
  {
    if reqs != [] {
      var t := reqs[0].now;
      WideGapEarns(t - b.last, rate);
      RefillGives(b, t, rate, cap);
      TakeKeepsCap(b, t, rate, cap, 1);
      SlowSourcePasses(Take(b, t, rate, cap, 1).0, reqs[1..], rate, cap);
    }
  }
}
