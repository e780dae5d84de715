/** Throughput bounds over any window of any run: the per-source limiter, the QoS classes and the
    SYN limiter. */
module RateBounds {
  import opened Types
  import opened TokenBucket
  import opened Pipeline
  import opened Runs

  /** A token bucket of the data plane. */
  datatype Meter = SourceRate(k: IpKey) | ClassRate(i: nat) | SynRate(k: IpKey)

  predicate Installed(lim: Limits, s: State, m: Meter) {
    match m
    case SourceRate(k) => k in s.aux.rate
    case ClassRate(i) => i < |Classes(lim)| && i < |s.aux.qos| && Classes(lim)[i].rateBps != 0
    case SynRate(k) => lim.synRate != 0
  }

  /** A source not yet in the SYN table stands for a full bucket. */
  function BucketOf(lim: Limits, s: State, m: Meter): Bucket
    requires Installed(lim, s, m)
  {
    match m
    case SourceRate(k) => s.aux.rate[k].bucket
    case ClassRate(i) => s.aux.qos[i]
    case SynRate(k) => if k in s.aux.syn then s.aux.syn[k] else Bucket(0, SynCap(lim))
  }

  function RateOf(lim: Limits, s: State, m: Meter): u32
    requires Installed(lim, s, m)
  {
    match m
    case SourceRate(k) => s.aux.rate[k].rate
    case ClassRate(i) => Classes(lim)[i].rateBps
    case SynRate(k) => lim.synRate
  }

  function CapOf(lim: Limits, s: State, m: Meter): u32
    requires Installed(lim, s, m)
  {
    match m
    case SourceRate(k) => RateCap(s.aux.rate[k])
    case ClassRate(i) => Classes(lim)[i].burstBytes
    case SynRate(k) => SynCap(lim)
  }

  /** The packet is not decided before the rate stages. */
  predicate Checked(s: State, e: Event) {
    e.PacketIn? && EarlyPath(e.pol, s.frag, e.f, e.now).None?
  }

  function PathOf(lim: Limits, s: State, e: Event): Path
    requires e.PacketIn?
  {
    Packet(lim, e.pol, s, e.f, e.now).1.path
  }

  /** What the event asks of the meter: a token, or the packet's bytes. */
  function Asks(lim: Limits, s: State, e: Event, m: Meter): Option<Request> {
    if !Checked(s, e) then None
    else
      var h := e.f.l3.h;
      match m
      case SourceRate(k) => if h.SrcKey() == k then Some(Request(e.now, 1)) else None
      case ClassRate(i) =>
        if !PathOf(lim, s, e).RateLimited? && QosClass(lim, e.f, h) == Some(i)
        then Some(Request(e.now, e.f.len)) else None
      case SynRate(k) =>
        if IsTcpSyn(h) && h.SrcKey() == k && PathOf(lim, s, e).ReachesSynCheck()
        then Some(Request(e.now, 1)) else None
  }

  /** What the event gets through the meter: its cost, if the packet is passed. */
  function Through(lim: Limits, s: State, e: Event, m: Meter): nat {
    var r := Asks(lim, s, e, m);
    if r.Some? && PathOf(lim, s, e).Passes() then r.value.cost else 0
  }

  /** Packets, or bytes, that a run passes through a meter. */
  function Total(lim: Limits, s: State, es: seq<Event>, m: Meter): nat
    decreases |es|
  {
    if es == [] then 0
    else Through(lim, s, es[0], m) + Total(lim, Step(lim, s, es[0]).0, es[1..], m)
  }

  function Requests(lim: Limits, s: State, es: seq<Event>, m: Meter): seq<Request>
    decreases |es|
  {
    if es == [] then []
    else
      var r := Asks(lim, s, es[0], m);
      (if r.Some? then [r.value] else []) + Requests(lim, Step(lim, s, es[0]).0, es[1..], m)
  }

  // ---------------------------------------------------------------- one step

  predicate SameMeter(lim: Limits, s: State, s': State, m: Meter)
    requires Installed(lim, s, m)
  {
    Installed(lim, s', m) && RateOf(lim, s', m) == RateOf(lim, s, m) && CapOf(lim, s', m) == CapOf(lim, s, m)
  }

  /** One event: the meter's bucket moves only when asked, by exactly one `Take`, and a packet passes
      only if the take succeeds. */
  predicate MeterStep(lim: Limits, s: State, s': State, e: Event, m: Meter)
    requires Installed(lim, s, m)
  {
    && SameMeter(lim, s, s', m)
    && var r := Asks(lim, s, e, m);
    if r.None? then BucketOf(lim, s', m) == BucketOf(lim, s, m) && Through(lim, s, e, m) == 0
    else
      var (b, ok) := Take(BucketOf(lim, s, m), r.value.now, RateOf(lim, s, m), CapOf(lim, s, m), r.value.cost);
      BucketOf(lim, s', m) == b && Through(lim, s, e, m) <= (if ok then r.value.cost else 0)
  }

  /** What an outcome of the stages after QoS does to the limiters. */
  predicate LimitersAfter(lim: Limits, s: Aux, h: Header, now: u64, o: Outcome) {
    var p := o.verdict.path;
    && o.aux == s.(counts := o.aux.counts, alg := o.aux.alg, syn := SynAfter(lim, s.syn, h, p, now))
    && !p.RateLimited? && !p.QosLimited?
    && (IsTcpSyn(h) && p.Accepted? ==> SynTokens(lim, s.syn, h.SrcKey(), now).1)
  }

  function SynAfter(lim: Limits, syn: map<IpKey, Bucket>, h: Header, p: Path, now: u64): map<IpKey, Bucket> {
    if IsTcpSyn(h) && p.ReachesSynCheck() then SynTokens(lim, syn, h.SrcKey(), now).0 else syn
  }

  lemma AdmitNewLimiters(lim: Limits, s: Aux, f: Frame, h: Header, mark: Option<byte>, now: u64)
    ensures LimitersAfter(lim, s, h, now, AdmitNew(lim, s, f, h, mark, now))
  {
  }

  lemma AdmitLimiters(lim: Limits, pol: Policy, s: Aux, f: Frame, h: Header, mark: Option<byte>, now: u64)
    ensures LimitersAfter(lim, s, h, now, Admit(lim, pol, s, f, h, mark, now))
  {
    AdmitNewLimiters(lim, s, f, h, mark, now);
  }

  lemma TrackLimiters(
    lim: Limits, pol: Policy, s: Aux, found: Lookup, f: Frame, h: Header, mark: Option<byte>, now: u64)
    ensures LimitersAfter(lim, s, h, now, Track(lim, pol, s, found, f, h, mark, now))
  {
    AdmitLimiters(lim, pol, s, f, h, mark, now);
    AdmitLimiters(lim, pol, s.(alg := AlgCheck(s.alg, h, now).0), f, h, mark, now);
  }

  lemma LimitLimiters(lim: Limits, pol: Policy, s: Aux, found: Lookup, f: Frame, h: Header, now: u64)
    ensures var o, p := Limit(lim, pol, s, found, f, h, now), Limit(lim, pol, s, found, f, h, now).verdict.path;
            && o.aux.rate == RateCheck(s.rate, h.SrcKey(), now).0
            && p.RateLimited? == !RateCheck(s.rate, h.SrcKey(), now).1
            && (p.RateLimited? ==> o.aux.qos == s.qos && o.aux.syn == s.syn)
            && (!p.RateLimited? ==> o.aux.qos == QosCheck(lim, s.qos, f, h, now).0
                                    && p.QosLimited? == !QosCheck(lim, s.qos, f, h, now).1)
            && o.aux.syn == SynAfter(lim, s.syn, h, p, now)
            && (IsTcpSyn(h) && p.Accepted? ==> SynTokens(lim, s.syn, h.SrcKey(), now).1)
  {
    var s1 := s.(rate := RateCheck(s.rate, h.SrcKey(), now).0);
    var s2 := s1.(qos := QosCheck(lim, s1.qos, f, h, now).0);
    TrackLimiters(lim, pol, s2, found, f, h, QosMark(lim, f, h), now);
  }

  lemma UncheckedStep(lim: Limits, s: State, e: Event, m: Meter)
    requires Installed(lim, s, m) && !Checked(s, e)
    ensures MeterStep(lim, s, Step(lim, s, e).0, e, m)
  {
    var s' := Step(lim, s, e).0;
    assert s'.aux.rate == s.aux.rate && s'.aux.qos == s.aux.qos && s'.aux.syn == s.aux.syn;
  }

  lemma CheckedStep(lim: Limits, s: State, e: Event, m: Meter)
    requires Installed(lim, s, m) && Checked(s, e)
    ensures MeterStep(lim, s, Step(lim, s, e).0, e, m)
  {
    var h, s', p := e.f.l3.h, Step(lim, s, e).0, PathOf(lim, s, e);
    LimitLimiters(lim, e.pol, s.aux, LookUpFrame(lim.timeouts, s.ct, e.f, e.now), e.f, h, e.now);
    match m
    case SourceRate(k) =>
      assert s'.aux.rate == RateCheck(s.aux.rate, h.SrcKey(), e.now).0;
      assert p.RateLimited? == !RateCheck(s.aux.rate, h.SrcKey(), e.now).1;
    case ClassRate(i) =>
      if p.RateLimited? {
        assert s'.aux.qos == s.aux.qos;
      } else {
        assert s'.aux.qos == QosCheck(lim, s.aux.qos, e.f, h, e.now).0;
        assert p.QosLimited? == !QosCheck(lim, s.aux.qos, e.f, h, e.now).1;
      }
    case SynRate(k) => SynStep(lim, s, e, k);
  }

  lemma SynStep(lim: Limits, s: State, e: Event, k: IpKey)
    requires lim.synRate != 0 && Checked(s, e)
    ensures MeterStep(lim, s, Step(lim, s, e).0, e, SynRate(k))
  {
    var h, s', p := e.f.l3.h, Step(lim, s, e).0, PathOf(lim, s, e);
    LimitLimiters(lim, e.pol, s.aux, LookUpFrame(lim.timeouts, s.ct, e.f, e.now), e.f, h, e.now);
    var syn := s.aux.syn;
    if IsTcpSyn(h) && h.SrcKey() == k && p.ReachesSynCheck() {
      assert s'.aux.syn == SynTokens(lim, syn, k, e.now).0;
      assert p.Accepted? ==> SynTokens(lim, syn, k, e.now).1;
      FirstSynTakesFromFull(lim, e.now);
    } else if IsTcpSyn(h) && p.ReachesSynCheck() {
      assert s'.aux.syn == SynTokens(lim, syn, h.SrcKey(), e.now).0;
    } else {
      assert s'.aux.syn == syn;
    }
  }

  /** A source's first SYN leaves what a take from a full bucket would. */
  lemma FirstSynTakesFromFull(lim: Limits, now: u64)
    ensures Take(Bucket(0, SynCap(lim)), now, lim.synRate, SynCap(lim), 1) == (Bucket(now, SynCap(lim) - 1), true)
  {
    var cap := SynCap(lim);
    if now > 0 {
      assert Min(Earned(now, lim.synRate), (cap - cap) % TWO_64) == 0;
    }
  }

  lemma StepMeters(lim: Limits, s: State, e: Event, m: Meter)
    requires Installed(lim, s, m)
    ensures MeterStep(lim, s, Step(lim, s, e).0, e, m)
  {
    if Checked(s, e) { CheckedStep(lim, s, e, m); } else { UncheckedStep(lim, s, e, m); }
  }

  // ---------------------------------------------------------------- runs

  lemma {:induction false} TotalAtMostPassed(lim: Limits, s: State, es: seq<Event>, m: Meter)
    requires Installed(lim, s, m)
    ensures Total(lim, s, es, m)
            <= Passed(BucketOf(lim, s, m), Requests(lim, s, es, m), RateOf(lim, s, m), CapOf(lim, s, m))
    decreases |es|
  {
    if es != [] {
      var s' := Step(lim, s, es[0]).0;
      StepMeters(lim, s, es[0], m);
      TotalAtMostPassed(lim, s', es[1..], m);
      var reqs, rest := Requests(lim, s, es, m), Requests(lim, s', es[1..], m);
      if Asks(lim, s, es[0], m).Some? { assert reqs[1..] == rest; } else { assert reqs == rest; }
    }
  }

  lemma ClockedTail(es: seq<Event>, from: u64)
    requires Clocked(es, from) && es != []
    ensures Clocked(es[1..], es[0].now)
  {
    forall i | 0 <= i < |es[1..]| ensures es[0].now <= es[1..][i].now { assert es[1..][i] == es[1 + i]; }
    forall i, j | 0 <= i <= j < |es[1..]| ensures es[1..][i].now <= es[1..][j].now {
      assert es[1..][i] == es[1 + i] && es[1..][j] == es[1 + j];
    }
  }

  lemma {:induction false} RequestsInWindow(lim: Limits, s: State, es: seq<Event>, m: Meter, from: u64, to: u64)
    requires Clocked(es, from) && forall e | e in es :: e.now <= to
    ensures InWindow(Requests(lim, s, es, m), from, to)
    ensures forall r | r in Requests(lim, s, es, m) :: es != [] && es[0].now <= r.now
    decreases |es|
  {
    if es != [] {
      var s' := Step(lim, s, es[0]).0;
      ClockedTail(es, from);
      RequestsInWindow(lim, s', es[1..], m, es[0].now, to);
      assert es[0] in es;
    }
  }

  /** Over every window of every run, from any state whose bucket is not overfull: what passes a meter
      is at most its capacity plus the rate over the window. */
  lemma WindowBoundOnRuns(lim: Limits, s: State, es: seq<Event>, m: Meter, from: u64, to: u64)
    requires Installed(lim, s, m) && BucketOf(lim, s, m).tokens <= CapOf(lim, s, m)
    requires from <= to && Clocked(es, from) && forall e | e in es :: e.now <= to
    ensures Total(lim, s, es, m) <= CapOf(lim, s, m) + (to - from) * RateOf(lim, s, m) / NANOS_PER_SEC
  {
    TotalAtMostPassed(lim, s, es, m);
    RequestsInWindow(lim, s, es, m, from, to);
    WindowBound(BucketOf(lim, s, m), Requests(lim, s, es, m), RateOf(lim, s, m), CapOf(lim, s, m), from, to);
  }

  /** There is no lower bound: while every gap between the requests of a run is too short for a whole token,
      the run passes no more than the tokens there were when it began. */
  lemma BusyMeterStarves(lim: Limits, s: State, es: seq<Event>, m: Meter)
    requires Installed(lim, s, m) && SlowGaps(BucketOf(lim, s, m).last, Requests(lim, s, es, m), RateOf(lim, s, m))
    ensures Total(lim, s, es, m) <= BucketOf(lim, s, m).tokens
  {
    TotalAtMostPassed(lim, s, es, m);
    BusySourceStarves(BucketOf(lim, s, m), Requests(lim, s, es, m), RateOf(lim, s, m), CapOf(lim, s, m));
  }

  /** And no run overfills a bucket. */
  lemma {:induction false} NeverOverfull(lim: Limits, s: State, es: seq<Event>, m: Meter)
    requires Installed(lim, s, m) && BucketOf(lim, s, m).tokens <= CapOf(lim, s, m)
    ensures var s' := After(lim, s, es);
            && Installed(lim, s', m)
            && RateOf(lim, s', m) == RateOf(lim, s, m) && CapOf(lim, s', m) == CapOf(lim, s, m)
            && BucketOf(lim, s', m).tokens <= CapOf(lim, s', m)
  {
    if es != [] {
      var front := es[..|es| - 1];
      NeverOverfull(lim, s, front, m);
      var b, e := After(lim, s, front), es[|es| - 1];
      StepMeters(lim, b, e, m);
      var r := Asks(lim, b, e, m);
      if r.Some? { TakeKeepsCap(BucketOf(lim, b, m), r.value.now, RateOf(lim, b, m), CapOf(lim, b, m), r.value.cost); }
    }
  }

  /** The bound for each limiter, in its own numbers: packets of a source, bytes of a class, new SYNs of a
      source. */
  lemma BoundsByLimiter(lim: Limits, s: State, es: seq<Event>, k: IpKey, i: nat, from: u64, to: u64)
    requires from <= to && Clocked(es, from) && forall e | e in es :: e.now <= to
    ensures k in s.aux.rate && s.aux.rate[k].bucket.tokens <= Max(s.aux.rate[k].burst, 1) ==>
              Total(lim, s, es, SourceRate(k))
              <= Max(s.aux.rate[k].burst, 1) + (to - from) * s.aux.rate[k].rate / NANOS_PER_SEC
    ensures var cs := lim.qosTable.slots;
            i < 32 && i < lim.qosTable.count && i < |cs| && i < |s.aux.qos| && cs[i].rateBps != 0
            && s.aux.qos[i].tokens <= cs[i].burstBytes ==>
              Total(lim, s, es, ClassRate(i)) <= cs[i].burstBytes + (to - from) * cs[i].rateBps / NANOS_PER_SEC
    ensures lim.synRate != 0 && (k in s.aux.syn ==> s.aux.syn[k].tokens <= Max(lim.synBurst, 1)) ==>
              Total(lim, s, es, SynRate(k)) <= Max(lim.synBurst, 1) + (to - from) * lim.synRate / NANOS_PER_SEC
  {
    if k in s.aux.rate && s.aux.rate[k].bucket.tokens <= Max(s.aux.rate[k].burst, 1) {
      WindowBoundOnRuns(lim, s, es, SourceRate(k), from, to);
    }
    var cs := lim.qosTable.slots;
    if i < 32 && i < lim.qosTable.count && i < |cs| && i < |s.aux.qos| && cs[i].rateBps != 0
       && s.aux.qos[i].tokens <= cs[i].burstBytes
    {
      assert Classes(lim)[i] == cs[i];
      WindowBoundOnRuns(lim, s, es, ClassRate(i), from, to);
    }
    if lim.synRate != 0 && (k in s.aux.syn ==> s.aux.syn[k].tokens <= Max(lim.synBurst, 1)) {
      WindowBoundOnRuns(lim, s, es, SynRate(k), from, to);
    }
  }
}
