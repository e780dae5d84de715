/** Runs: any interleaving of packets, outbound packets and daemon passes. */
module Runs {
  import opened Types
  import opened Pipeline

  datatype Event =
    | PacketIn(pol: Policy, f: Frame, now: u64)
    | EgressOut(h: Header, now: u64)
    | Prune(now: u64)
    | PruneFrag(timeoutSecs: u64, now: u64)
    | Reconcile(now: u64)
    | DeleteSessions(keys: set<FiveTuple>, now: u64)
    | ExpectFtp(key: FiveTuple, expireNs: u64, now: u64)

  function Step(lim: Limits, s: State, e: Event): (State, Option<Verdict>) {
    match e
    case PacketIn(pol, f, now) =>
      var (s', v) := Packet(lim, pol, s, f, now);
      (s', Some(v))
    case EgressOut(h, now) => (Egress(s, h, now), None)
    case Prune(now) => (s.(ct := PruneTable(lim.timeouts, s.ct, now)), None)
    case PruneFrag(secs, now) => (s.(frag := PruneFragments(s.frag, secs, now)), None)
    case Reconcile(_) => (ReconcileCounts(s), None)
    case DeleteSessions(keys, _) => (s.(ct := s.ct - keys), None)
    case ExpectFtp(k, expireNs, _) => (s.(aux := s.aux.(alg := s.aux.alg[k := expireNs])), None)
  }

  function After(lim: Limits, s: State, es: seq<Event>): State {
    if es == [] then s else Step(lim, After(lim, s, es[..|es| - 1]), es[|es| - 1]).0
  }

  /** The verdicts of the run's packets, in order. */
  function Verdicts(lim: Limits, s: State, es: seq<Event>): seq<Verdict> {
    if es == [] then []
    else
      Verdicts(lim, s, es[..|es| - 1]) + Said(Step(lim, After(lim, s, es[..|es| - 1]), es[|es| - 1]).1)
  }

  function Said(v: Option<Verdict>): seq<Verdict> {
    if v.Some? then [v.value] else []
  }

  lemma RunSnoc(lim: Limits, s: State, es: seq<Event>, e: Event)
    ensures After(lim, s, es + [e]) == Step(lim, After(lim, s, es), e).0
    ensures Verdicts(lim, s, es + [e]) == Verdicts(lim, s, es) + Said(Step(lim, After(lim, s, es), e).1)
  {
    assert (es + [e])[..|es|] == es;
  }

  /** The clock never goes back, and starts no earlier than `from`. */
  ghost predicate Clocked(es: seq<Event>, from: u64) {
    && (forall i | 0 <= i < |es| :: from <= es[i].now)
    && (forall i, j | 0 <= i <= j < |es| :: es[i].now <= es[j].now)
  }

  function Clock(es: seq<Event>, from: u64): u64 {
    if es == [] then from else es[|es| - 1].now
  }

  lemma ClockedFront(es: seq<Event>, from: u64)
    requires Clocked(es, from) && es != []
    ensures Clocked(es[..|es| - 1], from)
    ensures from <= Clock(es[..|es| - 1], from) <= es[|es| - 1].now
  {
    var front := es[..|es| - 1];
    forall i, j | 0 <= i <= j < |front| ensures front[i].now <= front[j].now {
      assert es[i].now <= es[j].now;
    }
    assert forall i | 0 <= i < |front| :: from <= es[i].now;
  }

  /** Nothing tracked or counted yet; limiter tables and statistics may hold anything. */
  predicate Fresh(s: State) {
    s.ct == map[] && s.aux.counts == Counts(map[], map[]) && s.frag == map[]
  }
}
