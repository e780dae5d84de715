/** The converse of provenance: what a tracked flow, and the packets of a run, are owed. */
module Availability {
  import opened Types
  import opened Conntrack
  import opened Pipeline
  import opened Effects
  import opened Runs
  import opened Tables

  // ---------------------------------------------------------------- live flows pass

  /** No configured timeout has run out after `span` ns. */
  ghost predicate WithinEvery(t: Timeouts, span: int) {
    forall state: CtState :: t[state.Slot()] == 0 || span <= t[state.Slot()] * NANOS_PER_SEC
  }

  /** Nobody deletes the session of `k`. */
  predicate Spares(e: Event, k: FiveTuple) {
    e.DeleteSessions? ==> k !in e.keys
  }

  /** Only a sighting, a prune or a deletion touches an entry, and a prune leaves live ones alone. */
  lemma LiveEntryStays(lim: Limits, s: State, e: Event, k: FiveTuple)
    requires Live(lim.timeouts, s.ct, k, e.now) && Spares(e, k)
    ensures var ct' := Step(lim, s, e).0.ct;
            k in ct' && (ct'[k].lastSeen == e.now || ct'[k] == s.ct[k])
  {
    StepSights(lim, s, e, k);
    if e.PacketIn? { PacketSights(lim, e.pol, s, e.f, e.now, k); }
  }

  /** A packet of a live entry, either way, that reaches the limiters and satisfies them takes the fast path. */
  lemma LiveFlowPasses(lim: Limits, pol: Policy, s: State, f: Frame, now: u64, k: FiveTuple)
    requires EarlyPath(pol, s.frag, f, now).None? && Live(lim.timeouts, s.ct, k, now)
    requires f.l3.h.FlowKey() == k || f.l3.h.FlowKey() == k.Reverse()
    ensures var p := Packet(lim, pol, s, f, now).1.path;
            p.CtForward? || p.CtReverse? || p.RateLimited? || p.QosLimited?
  {
    var h := f.l3.h;
    assert k.Reverse().Reverse() == k;
    var found := LookUp(lim.timeouts, s.ct, h.FlowKey(), now);
    assert !found.Unknown?;
    LimitOfFound(lim, pol, s.aux, found, f, h, now);
  }

  lemma LimitOfFound(lim: Limits, pol: Policy, s: Aux, found: Lookup, f: Frame, h: Header, now: u64)
    requires !found.Unknown?
    ensures var p := Limit(lim, pol, s, found, f, h, now).verdict.path;
            p.CtForward? || p.CtReverse? || p.RateLimited? || p.QosLimited?
  {
  }

  /** The event at `n` is a packet of the flow, in either direction, that no early stage decides. */
  predicate CheckedAt(lim: Limits, s: State, es: seq<Event>, n: nat, k: FiveTuple)
    requires n < |es|
  {
    var e := es[n];
    && e.PacketIn? && EarlyPath(e.pol, After(lim, s, es[..n]).frag, e.f, e.now).None?
    && (e.f.l3.h.FlowKey() == k || e.f.l3.h.FlowKey() == k.Reverse())
  }

  lemma ClockedPrefix(es: seq<Event>, n: nat, from: u64)
    requires Clocked(es, from) && n <= |es|
    ensures Clocked(es[..n], from)
  {
    forall i, j | 0 <= i <= j < n ensures es[..n][i].now <= es[..n][j].now {
      assert es[i].now <= es[j].now;
    }
  }

  // ---------------------------------------------------------------- exactly when an entry is live

  /** Since position `c` nobody deleted the session of `k`. */
  predicate SparedSince(es: seq<Event>, c: nat, k: FiveTuple) {
    forall i | c < i < |es| :: Spares(es[i], k)
  }

  /** The entry of `k` as the event at position `c` left it. */
  function EntryAfter(lim: Limits, s: State, es: seq<Event>, c: nat, k: FiveTuple): Option<CtValue>
    requires c < |es|
  {
    var ct := After(lim, s, es[..c + 1]).ct;
    if k in ct then Some(ct[k]) else None
  }

  lemma EntryAfterFront(lim: Limits, s: State, es: seq<Event>, e: Event, c: nat, k: FiveTuple)
    requires c < |es|
    ensures EntryAfter(lim, s, es + [e], c, k) == EntryAfter(lim, s, es, c, k)
  {
    assert (es + [e])[..c + 1] == es[..c + 1];
  }

  /** A sighting is the last one, and leaves the entry the run now has. */
  lemma SightedNow(lim: Limits, s: State, es: seq<Event>, e: Event, k: FiveTuple)
    requires Sights(lim, After(lim, s, es), e, k)
    ensures var all := es + [e];
            && k in After(lim, s, all).ct && LastSighting(lim, s, all, k) == Some(|es|)
            && EntryAfter(lim, s, all, |es|, k) == Some(After(lim, s, all).ct[k])
  {
    var all := es + [e];
    assert all[..|all| - 1] == es && all[..|es| + 1] == all;
    StepSights(lim, After(lim, s, es), e, k);
  }

  lemma NotSightedNow(lim: Limits, s: State, es: seq<Event>, e: Event, k: FiveTuple)
    requires !Sights(lim, After(lim, s, es), e, k)
    ensures LastSighting(lim, s, es + [e], k) == LastSighting(lim, s, es, k)
  {
    assert (es + [e])[..|es|] == es;
  }

  /** An event that does not sight an entry leaves it as it is, or takes it away. */
  lemma UnsightedEntry(lim: Limits, s: State, es: seq<Event>, e: Event, k: FiveTuple)
    requires !Sights(lim, After(lim, s, es), e, k) && k in After(lim, s, es + [e]).ct
    ensures k in After(lim, s, es).ct && After(lim, s, es).ct[k] == After(lim, s, es + [e]).ct[k] && Spares(e, k)
  {
    RunSnoc(lim, s, es, e);
    StepSights(lim, After(lim, s, es), e, k);
  }

  /** Between sightings an entry is as the last sighting left it, or gone. */
  lemma {:induction false} EntryUnchanged(lim: Limits, s: State, es: seq<Event>, k: FiveTuple)
    requires Fresh(s) && k in After(lim, s, es).ct
    ensures var c := LastSighting(lim, s, es, k);
            && c.Some? && SparedSince(es, c.value, k)
            && EntryAfter(lim, s, es, c.value, k) == Some(After(lim, s, es).ct[k])
  {
    var front, e := es[..|es| - 1], es[|es| - 1];
    assert es == front + [e];
    if Sights(lim, After(lim, s, front), e, k) {
      SightedNow(lim, s, front, e, k);
    } else {
      NotSightedNow(lim, s, front, e, k);
      UnsightedEntry(lim, s, front, e, k);
      EntryUnchanged(lim, s, front, k);
      var c := LastSighting(lim, s, front, k).value;
      EntryAfterFront(lim, s, front, e, c, k);
      SparedSnoc(front, e, c, k);
    }
  }

  lemma SparedSnoc(es: seq<Event>, e: Event, c: nat, k: FiveTuple)
    requires c < |es|
    ensures SparedSince(es + [e], c, k) <==> SparedSince(es, c, k) && Spares(e, k)
  {
    var all := es + [e];
    if SparedSince(all, c, k) {
      assert all[|es|] == e;
      forall i | c < i < |es| ensures Spares(es[i], k) { assert all[i] == es[i]; }
    }
  }

  lemma AfterNext(lim: Limits, s: State, es: seq<Event>, n: nat)
    requires n < |es|
    ensures After(lim, s, es[..n + 1]) == Step(lim, After(lim, s, es[..n]), es[n]).0
  {
    assert es[..n + 1][..n] == es[..n];
  }

  /** Nothing at position `i`, at `now` or before, sights the entry of `k` or deletes its session. */
  predicate Undisturbed(lim: Limits, s: State, es: seq<Event>, i: nat, k: FiveTuple, now: u64)
    requires i < |es|
  {
    es[i].now <= now && !Sights(lim, After(lim, s, es[..i]), es[i], k) && Spares(es[i], k)
  }

  lemma {:induction false} NotSightedSince(lim: Limits, s: State, es: seq<Event>, c: nat, k: FiveTuple, i: nat)
    requires LastSighting(lim, s, es, k) == Some(c) && c < i < |es|
    ensures !Sights(lim, After(lim, s, es[..i]), es[i], k)
    decreases |es|
  {
    var front, e := es[..|es| - 1], es[|es| - 1];
    assert es == front + [e];
    if Sights(lim, After(lim, s, front), e, k) {
      SightedNow(lim, s, front, e, k);
      assert false;
    } else if i < |front| {
      NotSightedNow(lim, s, front, e, k);
      NotSightedSince(lim, s, front, c, k, i);
      assert front[..i] == es[..i];
    }
  }

  /** A live entry that is not disturbed survives any event. */
  lemma UndisturbedStays(lim: Limits, s: State, e: Event, k: FiveTuple, v: CtValue)
    requires !Sights(lim, s, e, k) && Spares(e, k) && InTime(lim.timeouts, Some(v), e.now)
    requires k in s.ct && s.ct[k] == v
    ensures k in Step(lim, s, e).0.ct && Step(lim, s, e).0.ct[k] == v
  {
    StepSights(lim, s, e, k);
    LiveEntryStays(lim, s, e, k);
  }

  /** The entries of `k` before each event of the run, and after the last. */
  function Entries(lim: Limits, s: State, es: seq<Event>, k: FiveTuple): (xs: seq<Option<CtValue>>)
    ensures |xs| == |es| + 1
  {
    seq(|es| + 1, i requires 0 <= i <= |es| =>
      var ct := After(lim, s, es[..i]).ct; if k in ct then Some(ct[k]) else None)
  }

  predicate Carries<T(==)>(xs: seq<T>, v: T, i: nat)
    requires i + 1 < |xs|
  {
    xs[i] == v ==> xs[i + 1] == v
  }

  lemma {:induction false} CarriedOn<T>(xs: seq<T>, v: T, c: nat, n: nat)
    requires c <= n < |xs| && xs[c] == v && forall i | c <= i < n :: Carries(xs, v, i)
    ensures xs[n] == v
    decreases n
  {
    if c < n {
      CarriedOn(xs, v, c, n - 1);
      assert Carries(xs, v, n - 1);
    }
  }

  /** So it stays while its own timeout lasts. */
  lemma EntryStays(
    lim: Limits, s: State, es: seq<Event>, c: nat, k: FiveTuple, v: CtValue, n: nat, now: u64)
    requires c < n <= |es| && EntryAfter(lim, s, es, c, k) == Some(v) && InTime(lim.timeouts, Some(v), now)
    requires forall i | c < i < n :: Undisturbed(lim, s, es, i, k, now)
    ensures Entries(lim, s, es, k)[n] == Some(v)
  {
    var xs := Entries(lim, s, es, k);
    forall i | c + 1 <= i < n ensures Carries(xs, Some(v), i) { UndisturbedCarries(lim, s, es, i, k, v, now); }
    CarriedOn(xs, Some(v), c + 1, n);
  }

  lemma UndisturbedCarries(lim: Limits, s: State, es: seq<Event>, i: nat, k: FiveTuple, v: CtValue, now: u64)
    requires i < |es| && Undisturbed(lim, s, es, i, k, now) && InTime(lim.timeouts, Some(v), now)
    ensures Carries(Entries(lim, s, es, k), Some(v), i)
  {
    if Entries(lim, s, es, k)[i] == Some(v) { OneMoreUndisturbed(lim, s, es, i, k, v, now); }
  }

  lemma OneMoreUndisturbed(lim: Limits, s: State, es: seq<Event>, n: nat, k: FiveTuple, v: CtValue, now: u64)
    requires n < |es| && Undisturbed(lim, s, es, n, k, now) && InTime(lim.timeouts, Some(v), now)
    requires k in After(lim, s, es[..n]).ct && After(lim, s, es[..n]).ct[k] == v
    ensures k in After(lim, s, es[..n + 1]).ct && After(lim, s, es[..n + 1]).ct[k] == v
  {
    InTimeEarlier(lim.timeouts, Some(v), es[n].now, now);
    UndisturbedStays(lim, After(lim, s, es[..n]), es[n], k, v);
    AfterNext(lim, s, es, n);
  }

  lemma HeldEntryStays(lim: Limits, s: State, es: seq<Event>, c: nat, k: FiveTuple, v: CtValue, now: u64, from: u64)
    requires Clocked(es, from) && Clock(es, from) <= now && c < |es| && LastSighting(lim, s, es, k) == Some(c)
    requires EntryAfter(lim, s, es, c, k) == Some(v) && SparedSince(es, c, k) && InTime(lim.timeouts, Some(v), now)
    ensures var ct := After(lim, s, es).ct; k in ct && ct[k] == v
  {
    forall i | c < i < |es| ensures Undisturbed(lim, s, es, i, k, now) {
      assert es[i].now <= es[|es| - 1].now && Spares(es[i], k);
      NotSightedSince(lim, s, es, c, k, i);
    }
    EntryStays(lim, s, es, c, k, v, |es|, now);
    assert es[..|es|] == es;
  }

  predicate InTime(t: Timeouts, v: Option<CtValue>, now: u64) {
    v.Some? && !Expired(t, v.value.state, v.value.lastSeen, now)
  }

  lemma InTimeEarlier(t: Timeouts, v: Option<CtValue>, now: u64, later: u64)
    requires InTime(t, v, later) && now <= later
    ensures InTime(t, v, now)
  {
  }

  /** On every run, at any time after it: an entry is live exactly when it was sighted, nobody deleted its
      session since, and the timeout of the state that sighting left it in is not over. */
  lemma LiveIff(lim: Limits, s: State, es: seq<Event>, k: FiveTuple, now: u64, from: u64)
    requires Fresh(s) && Clocked(es, from) && Clock(es, from) <= now
    ensures var c := LastSighting(lim, s, es, k);
            Live(lim.timeouts, After(lim, s, es).ct, k, now)
            <==> c.Some? && SparedSince(es, c.value, k)
                 && InTime(lim.timeouts, EntryAfter(lim, s, es, c.value, k), now)
  {
    var c := LastSighting(lim, s, es, k);
    if Live(lim.timeouts, After(lim, s, es).ct, k, now) {
      EntryUnchanged(lim, s, es, k);
    } else if c.Some? && SparedSince(es, c.value, k) && InTime(lim.timeouts, EntryAfter(lim, s, es, c.value, k), now) {
      HeldEntryStays(lim, s, es, c.value, k, EntryAfter(lim, s, es, c.value, k).value, now, from);
    }
  }

  /** The flow is held at position `n`, under this key. */
  predicate HeldAt(lim: Limits, s: State, es: seq<Event>, n: nat, k: FiveTuple)
    requires n < |es|
  {
    var c := LastSighting(lim, s, es[..n], k);
    && c.Some? && SparedSince(es[..n], c.value, k)
    && InTime(lim.timeouts, EntryAfter(lim, s, es[..n], c.value, k), es[n].now)
  }

  /** So a packet that reaches the limiters and satisfies them takes the fast path exactly when its flow, in
      one direction or the other, is held: a matter of its own sightings, deletions and timeout alone. */
  lemma FastPathIff(lim: Limits, s: State, es: seq<Event>, n: nat, k: FiveTuple, from: u64)
    requires Fresh(s) && Clocked(es, from) && n < |es| && CheckedAt(lim, s, es, n, k)
    requires var p := VerdictAt(lim, s, es, n).path; !p.RateLimited? && !p.QosLimited?
    ensures var p := VerdictAt(lim, s, es, n).path;
            p.CtForward? || p.CtReverse? <==> HeldAt(lim, s, es, n, k) || HeldAt(lim, s, es, n, k.Reverse())
  {
    var e, b := es[n], After(lim, s, es[..n]);
    ClockedPrefix(es, n, from);
    assert n > 0 ==> es[n - 1].now <= e.now;
    LiveIff(lim, s, es[..n], k, e.now, from);
    LiveIff(lim, s, es[..n], k.Reverse(), e.now, from);
    LookUpDecides(lim, e.pol, b, e.f, e.now);
    assert k.Reverse().Reverse() == k;
  }

  /** Availability: while its flow is held, in either direction, a packet passes, whatever packets, prunes,
      reconciles and policy changes come between, a default of dropping included, unless an early stage or a
      limiter decides it. */
  lemma TrackedFlowPasses(lim: Limits, s: State, es: seq<Event>, n: nat, k: FiveTuple, from: u64)
    requires Clocked(es, from) && n < |es| && CheckedAt(lim, s, es, n, k) && HeldAt(lim, s, es, n, k)
    ensures var p := VerdictAt(lim, s, es, n).path; p.Passes() || p.RateLimited? || p.QosLimited?
  {
    var e := es[n];
    ClockedPrefix(es, n, from);
    assert n > 0 ==> es[n - 1].now <= e.now;
    var c := LastSighting(lim, s, es[..n], k).value;
    HeldEntryStays(lim, s, es[..n], c, k, EntryAfter(lim, s, es[..n], c, k).value, e.now, from);
    LiveFlowPasses(lim, e.pol, After(lim, s, es[..n]), e.f, e.now, k);
  }

  lemma {:induction false} SightedSince(lim: Limits, s: State, es: seq<Event>, c: nat, k: FiveTuple)
    requires c < |es| && Sights(lim, After(lim, s, es[..c]), es[c], k)
    ensures var d := LastSighting(lim, s, es, k);
            && d.Some? && c <= d.value && EntryAfter(lim, s, es, d.value, k).Some?
            && EntryAfter(lim, s, es, d.value, k).value.lastSeen == es[d.value].now
  {
    var front, e := es[..|es| - 1], es[|es| - 1];
    assert es == front + [e];
    if Sights(lim, After(lim, s, front), e, k) {
      SightedNow(lim, s, front, e, k);
      StepSights(lim, After(lim, s, front), e, k);
    } else {
      NotSightedNow(lim, s, front, e, k);
      assert front[..c] == es[..c];
      SightedSince(lim, s, front, c, k);
      EntryAfterFront(lim, s, front, e, LastSighting(lim, s, front, k).value, k);
    }
  }

  /** In particular a flow is held, through all its states, until the shortest timeout after any sighting is
      over, if nobody deletes its session. */
  lemma HeldWithinShortest(lim: Limits, s: State, es: seq<Event>, c: nat, n: nat, k: FiveTuple, from: u64)
    requires Clocked(es, from) && c < n < |es| && Sights(lim, After(lim, s, es[..c]), es[c], k)
    requires WithinEvery(lim.timeouts, es[n].now - es[c].now) && SparedSince(es[..n], c, k)
    ensures HeldAt(lim, s, es, n, k)
  {
    var front := es[..n];
    assert front[..c] == es[..c];
    SightedSince(lim, s, front, c, k);
    var d := LastSighting(lim, s, front, k).value;
    var v := EntryAfter(lim, s, front, d, k).value;
    assert front[d] == es[d] && es[c].now <= es[d].now;
    assert lim.timeouts[v.state.Slot()] == 0
        || es[n].now - es[c].now <= lim.timeouts[v.state.Slot()] * NANOS_PER_SEC;
  }

  lemma LookUpDecides(lim: Limits, pol: Policy, s: State, f: Frame, now: u64)
    requires EarlyPath(pol, s.frag, f, now).None?
    requires var p := Packet(lim, pol, s, f, now).1.path; !p.RateLimited? && !p.QosLimited?
    ensures var p, flow := Packet(lim, pol, s, f, now).1.path, f.l3.h.FlowKey();
            p.CtForward? || p.CtReverse?
            <==> Live(lim.timeouts, s.ct, flow, now) || Live(lim.timeouts, s.ct, flow.Reverse(), now)
  {
    var found := LookUpFrame(lim.timeouts, s.ct, f, now);
    DecideEffect(lim, pol, s.aux, None, found, f, now);
    if !found.Unknown? { LimitOfFound(lim, pol, s.aux, found, f, f.l3.h, now); }
  }

  // ---------------------------------------------------------------- dropped packets leave no trace

  /** A packet that is dropped opens no connection, makes no fragment flow known and counts towards no quota. */
  lemma DroppedLeavesNoTrace(lim: Limits, pol: Policy, s: State, f: Frame, now: u64)
    requires !Packet(lim, pol, s, f, now).1.path.Passes()
    ensures var s' := Packet(lim, pol, s, f, now).0;
            s'.ct == s.ct && s'.frag == s.frag && s'.aux.counts == s.aux.counts
  {
    var early, found := EarlyPath(pol, s.frag, f, now), LookUpFrame(lim.timeouts, s.ct, f, now);
    EarlyPathOnly(pol, s.frag, f, now);
    DecideEffect(lim, pol, s.aux, early, found, f, now);
  }

  // ---------------------------------------------------------------- statistics

  /** The headings of the statistics. */
  datatype Heading = Seen | Passed | Dropped | FromBlocked

  /** Malformed packets are in no heading. */
  predicate Under(v: Verdict, g: Heading) {
    && !v.path.Malformed?
    && (g.Passed? ==> v.path.Passes()) && (g.Dropped? ==> !v.path.Passes()) && (g.FromBlocked? ==> v.path.Blocked?)
  }

  function HowMany(vs: seq<Verdict>, g: Heading): nat {
    if vs == [] then 0 else HowMany(vs[..|vs| - 1], g) + (if Under(vs[|vs| - 1], g) then 1 else 0)
  }

  function Figure(s: Stats, g: Heading): nat {
    match g
    case Seen => s.packets
    case Passed => s.passed
    case Dropped => s.dropped
    case FromBlocked => s.blocked
  }

  lemma StepFigure(lim: Limits, s: State, e: Event, g: Heading)
    ensures var (s', v) := Step(lim, s, e);
            Figure(s'.stats, g) == Tick(Figure(s.stats, g), v.Some? && Under(v.value, g))
  {
    if e.PacketIn? {
      var (s', v) := Packet(lim, e.pol, s, e.f, e.now);
      assert s'.stats == Bump(s.stats, v.path);
    }
  }

  lemma HowManySaid(vs: seq<Verdict>, v: Option<Verdict>, g: Heading)
    ensures HowMany(vs + Said(v), g) == HowMany(vs, g) + (if v.Some? && Under(v.value, g) then 1 else 0)
  {
    if v.Some? {
      assert (vs + Said(v))[..|vs|] == vs;
    } else {
      assert vs + Said(v) == vs;
    }
  }

  /** A counter that goes up `n` times. */
  function TickTimes(x: u64, n: nat): u64 {
    if n == 0 then x else Tick(TickTimes(x, n - 1), true)
  }

  function Sum64(x: u64, n: nat): u64 {
    (x + n) % TWO_64
  }

  lemma {:induction false} TickTimesIsSum(x: u64, n: nat)
    ensures TickTimes(x, n) == Sum64(x, n)
  {
    if n > 0 {
      TickTimesIsSum(x, n - 1);
      OneMore(x + n - 1);
    }
  }

  lemma OneMore(x: nat)
    ensures (x % TWO_64 + 1) % TWO_64 == (x + 1) % TWO_64
  {
  }

  lemma {:induction false} FiguresTick(lim: Limits, s: State, es: seq<Event>, g: Heading)
    ensures Figure(After(lim, s, es).stats, g) == TickTimes(Figure(s.stats, g), HowMany(Verdicts(lim, s, es), g))
  {
    if es != [] {
      var front, e := es[..|es| - 1], es[|es| - 1];
      assert es == front + [e];
      FiguresTick(lim, s, front, g);
      OneMoreFigure(lim, After(lim, s, front), e, Verdicts(lim, s, front), Figure(s.stats, g), g);
      RunSnoc(lim, s, front, e);
    }
  }

  lemma OneMoreFigure(lim: Limits, s: State, e: Event, vs: seq<Verdict>, x: u64, g: Heading)
    requires Figure(s.stats, g) == TickTimes(x, HowMany(vs, g))
    ensures var (s', v) := Step(lim, s, e); Figure(s'.stats, g) == TickTimes(x, HowMany(vs + Said(v), g))
  {
    var (s', v) := Step(lim, s, e);
    StepFigure(lim, s, e, g);
    TickOnce(x, Figure(s.stats, g), Figure(s'.stats, g), vs, v, g);
  }

  lemma TickOnce(x: u64, before: u64, after: u64, vs: seq<Verdict>, v: Option<Verdict>, g: Heading)
    requires before == TickTimes(x, HowMany(vs, g)) && after == Tick(before, v.Some? && Under(v.value, g))
    ensures after == TickTimes(x, HowMany(vs + Said(v), g))
  {
    HowManySaid(vs, v, g);
  }

  /** The statistics of a run are the counts of its verdicts, as far as 64 bits can tell. */
  lemma StatsCountVerdicts(lim: Limits, s: State, es: seq<Event>, g: Heading)
    ensures Figure(After(lim, s, es).stats, g) == Sum64(Figure(s.stats, g), HowMany(Verdicts(lim, s, es), g))
  {
    FiguresTick(lim, s, es, g);
    TickTimesIsSum(Figure(s.stats, g), HowMany(Verdicts(lim, s, es), g));
  }

  /** And every packet seen was passed or dropped. */
  lemma {:induction false} SeenIsPassedOrDropped(vs: seq<Verdict>)
    ensures HowMany(vs, Seen) == HowMany(vs, Passed) + HowMany(vs, Dropped)
    ensures HowMany(vs, FromBlocked) <= HowMany(vs, Dropped)
  {
    if vs != [] { SeenIsPassedOrDropped(vs[..|vs| - 1]); }
  }
}
