/** Whole-run properties of the connection and fragment tables: no live twins, every pass of a
    non-first fragment has its first fragment, and every fast-path pass has its origin. */
module Tables {
  import opened Types
  import opened Conntrack
  import opened Pipeline
  import opened Effects
  import opened Runs

  // ---------------------------------------------------------------- twins

  predicate LiveOwn(t: Timeouts, ct: CtTable, k: FiveTuple, now: u64) {
    Live(t, ct, k, now) && !ct[k].isNat
  }

  /** No flow is tracked under both of its keys at once. */
  ghost predicate NoTwins(t: Timeouts, ct: CtTable, now: u64) {
    forall k :: LiveOwn(t, ct, k, now) && k != k.Reverse() ==> !LiveOwn(t, ct, k.Reverse(), now)
  }

  lemma NoTwinsLater(t: Timeouts, ct: CtTable, now: u64, later: u64)
    requires NoTwins(t, ct, now) && now <= later
    ensures NoTwins(t, ct, later)
  {
    forall k | LiveOwn(t, ct, k, later) && k != k.Reverse() ensures !LiveOwn(t, ct, k.Reverse(), later) {
      ExpiredStays(t, ct, k, now, later);
      if LiveOwn(t, ct, k.Reverse(), later) { ExpiredStays(t, ct, k.Reverse(), now, later); }
    }
  }

  /** A write is harmless when it injects a NAT reply, when its key was already a live own entry, or
      when its reverse is not live. */
  lemma NoTwinsInsert(t: Timeouts, ct: CtTable, k: FiveTuple, v: CtValue, now: u64)
    requires NoTwins(t, ct, now)
    requires v.isNat || LiveOwn(t, ct, k, now) || !Live(t, ct, k.Reverse(), now)
    ensures NoTwins(t, ct[k := v], now)
  {
    var ct' := ct[k := v];
    forall x | LiveOwn(t, ct', x, now) && x != x.Reverse() ensures !LiveOwn(t, ct', x.Reverse(), now) {
      assert x.Reverse().Reverse() == x && k.Reverse().Reverse() == k;
      assert x != k ==> (LiveOwn(t, ct', x, now) <==> LiveOwn(t, ct, x, now));
      assert x.Reverse() != k ==> (LiveOwn(t, ct', x.Reverse(), now) <==> LiveOwn(t, ct, x.Reverse(), now));
    }
  }

  lemma PacketKeepsNoTwins(lim: Limits, pol: Policy, s: State, f: Frame, now: u64)
    requires NoTwins(lim.timeouts, s.ct, now)
    ensures NoTwins(lim.timeouts, Packet(lim, pol, s, f, now).0.ct, now)
  {
    var early, found := EarlyPath(pol, s.frag, f, now), LookUpFrame(lim.timeouts, s.ct, f, now);
    EarlyPathOnly(pol, s.frag, f, now);
    DecideEffect(lim, pol, s.aux, early, found, f, now);
    OutcomeKeepsNoTwins(lim, pol, s, found, f, now, Decide(lim, pol, s.aux, early, found, f, now));
  }

  lemma OutcomeKeepsNoTwins(lim: Limits, pol: Policy, s: State, found: Lookup, f: Frame, now: u64, o: Outcome)
    requires NoTwins(lim.timeouts, s.ct, now) && found == LookUpFrame(lim.timeouts, s.ct, f, now)
    requires TableEffect(lim, pol, s.aux, found, f, now, o)
    ensures NoTwins(lim.timeouts, Written(s.ct, o.write), now)
  {
    if o.write.Some? {
      NoTwinsInsert(lim.timeouts, s.ct, o.write.value.key, o.write.value.value, now);
    }
  }

  lemma SubsetNoTwins(t: Timeouts, ct: CtTable, small: CtTable, now: u64)
    requires NoTwins(t, ct, now) && forall k | k in small :: k in ct && small[k] == ct[k]
    ensures NoTwins(t, small, now)
  {
    assert forall k | LiveOwn(t, small, k, now) :: LiveOwn(t, ct, k, now);
  }

  /** At every reachable state, and at any later time, a key and its reverse are not both unexpired own entries. */
  lemma {:induction false} NoTwinsOnRuns(lim: Limits, s: State, es: seq<Event>, from: u64)
    requires Fresh(s) && Clocked(es, from)
    ensures NoTwins(lim.timeouts, After(lim, s, es).ct, Clock(es, from))
  {
    if es != [] {
      var front, e := es[..|es| - 1], es[|es| - 1];
      ClockedFront(es, from);
      NoTwinsOnRuns(lim, s, front, from);
      var b := After(lim, s, front);
      NoTwinsLater(lim.timeouts, b.ct, Clock(front, from), e.now);
      match e
      case PacketIn(pol, f, now) => PacketKeepsNoTwins(lim, pol, b, f, now);
      case EgressOut(h, now) => NoTwinsInsert(lim.timeouts, b.ct, h.FlowKey().Reverse(), NatReply(now), now);
      case Prune(now) => SubsetNoTwins(lim.timeouts, b.ct, PruneTable(lim.timeouts, b.ct, now), now);
      case DeleteSessions(keys, now) => SubsetNoTwins(lim.timeouts, b.ct, b.ct - keys, now);
      case _ =>
    }
  }

  // ---------------------------------------------------------------- fragments

  /** The verdict on the packet at position `i` of a run. */
  function VerdictAt(lim: Limits, s: State, es: seq<Event>, i: nat): Verdict
    requires i < |es| && es[i].PacketIn?
  {
    Packet(lim, es[i].pol, After(lim, s, es[..i]), es[i].f, es[i].now).1
  }

  predicate IsIp(e: Event) {
    e.PacketIn? && e.f.l3.Ip?
  }

  /** A first fragment of the flow, inspected and passed. */
  predicate FirstFragmentPassed(lim: Limits, s: State, es: seq<Event>, i: nat, k: FragKey) {
    && i < |es| && IsIp(es[i])
    && es[i].f.l3.h.fragmented && es[i].f.l3.h.firstFragment && es[i].f.l3.h.FragmentKey() == k
    && es[i].pol.fragPolicy == FRAG_POLICY_INSPECT
    && VerdictAt(lim, s, es, i).path.Passes()
  }

  lemma RecordsOnlyFirst(lim: Limits, pol: Policy, s: State, f: Frame, now: u64)
    requires f.l3.Ip? && f.l3.h.fragmented && Packet(lim, pol, s, f, now).1.path.RecordsFragment()
    ensures f.l3.h.firstFragment && pol.fragPolicy == FRAG_POLICY_INSPECT
  {
    var early := EarlyPath(pol, s.frag, f, now);
    if early.Some? {
      assert Packet(lim, pol, s, f, now).1.path == early.value;
    }
    assert FragmentPath(pol, s.frag, f.l3.h, now).None?;
  }

  ghost predicate Justified(lim: Limits, s: State, es: seq<Event>, k: FragKey, t: u64) {
    exists i: nat | i < |es| :: FirstFragmentPassed(lim, s, es, i, k) && es[i].now == t
  }

  lemma JustifiedLonger(lim: Limits, s: State, es: seq<Event>, e: Event, k: FragKey, t: u64)
    requires Justified(lim, s, es, k, t)
    ensures Justified(lim, s, es + [e], k, t)
  {
    var i: nat :| i < |es| && FirstFragmentPassed(lim, s, es, i, k) && es[i].now == t;
    assert (es + [e])[..i] == es[..i];
    assert FirstFragmentPassed(lim, s, es + [e], i, k);
  }

  lemma PacketFragments(lim: Limits, s: State, es: seq<Event>, e: Event, k: FragKey)
    requires e.PacketIn? && k in Packet(lim, e.pol, After(lim, s, es), e.f, e.now).0.frag
    ensures var b := After(lim, s, es);
            var t := Packet(lim, e.pol, b, e.f, e.now).0.frag[k];
            (k in b.frag && b.frag[k] == t) || Justified(lim, s, es + [e], k, t)
  {
    var b := After(lim, s, es);
    var (b', v) := Packet(lim, e.pol, b, e.f, e.now);
    if v.path.RecordsFragment() && IsIp(e) && e.f.l3.h.fragmented && k == e.f.l3.h.FragmentKey() {
      RecordsOnlyFirst(lim, e.pol, b, e.f, e.now);
      assert (es + [e])[..|es|] == es;
      assert FirstFragmentPassed(lim, s, es + [e], |es|, k);
    }
  }

  /** Every entry of the fragment table is the time of a first fragment that was inspected and passed. */
  lemma {:induction false} FragmentTableJustified(lim: Limits, s: State, es: seq<Event>, k: FragKey)
    requires Fresh(s) && k in After(lim, s, es).frag
    ensures Justified(lim, s, es, k, After(lim, s, es).frag[k])
  {
    var front, e := es[..|es| - 1], es[|es| - 1];
    assert es == front + [e];
    var b := After(lim, s, front);
    if e.PacketIn? { PacketFragments(lim, s, front, e, k); }
    if !Justified(lim, s, es, k, After(lim, s, es).frag[k]) {
      assert k in b.frag && b.frag[k] == After(lim, s, es).frag[k];
      FragmentTableJustified(lim, s, front, k);
      JustifiedLonger(lim, s, front, e, k, b.frag[k]);
    }
  }

  /** A later fragment put to inspection. */
  predicate LaterFragmentInspected(e: Event) {
    && IsIp(e) && (e.f.ifindex, e.f.vlan) in e.pol.vifs
    && e.f.l3.h.fragmented && !e.f.l3.h.firstFragment && e.pol.fragPolicy == FRAG_POLICY_INSPECT
  }

  lemma PassedMeansKnown(lim: Limits, s: State, e: Event)
    requires LaterFragmentInspected(e) && Packet(lim, e.pol, s, e.f, e.now).1.path.Passes()
    ensures FragmentKnown(e.pol, s.frag, e.f.l3.h.FragmentKey(), e.now)
  {
    var early := EarlyPath(e.pol, s.frag, e.f, e.now);
    assert early.Some? && Packet(lim, e.pol, s, e.f, e.now).1.path == early.value;
  }

  /** On every run, a non-first fragment that passes inspection follows a passed first fragment with the
      same addresses and protocol, no older than the fragment timeout. */
  lemma FragmentsFollowFirst(lim: Limits, s: State, es: seq<Event>, n: nat, from: u64) returns (i: nat)
    requires Fresh(s) && Clocked(es, from)
    requires n < |es| && LaterFragmentInspected(es[n]) && VerdictAt(lim, s, es, n).path.Passes()
    ensures i < n && FirstFragmentPassed(lim, s, es, i, es[n].f.l3.h.FragmentKey())
    ensures es[n].now - es[i].now <= es[n].pol.fragTimeout * NANOS_PER_SEC
  {
    var front, e := es[..n], es[n];
    PassedMeansKnown(lim, After(lim, s, front), e);
    var k := e.f.l3.h.FragmentKey();
    FragmentTableJustified(lim, s, front, k);
    i := JustifiedEarlier(lim, s, es, n, k, After(lim, s, front).frag[k]);
    assert es[i].now <= es[n].now;
  }

  lemma JustifiedEarlier(lim: Limits, s: State, es: seq<Event>, n: nat, k: FragKey, t: u64) returns (i: nat)
    requires n <= |es| && Justified(lim, s, es[..n], k, t)
    ensures i < n && FirstFragmentPassed(lim, s, es, i, k) && es[i].now == t
  {
    var front := es[..n];
    i :| 0 <= i < |front| && FirstFragmentPassed(lim, s, front, i, k) && front[i].now == t;
    assert front[..i] == es[..i];
  }

  // ---------------------------------------------------------------- provenance

  /** The event opens the entry `k`: a packet accepted on the default or FTP path, a port-forwarding
      hit whose replies come under `k`, or an outbound packet whose reverse is `k`. */
  predicate Creates(lim: Limits, s: State, e: Event, k: FiveTuple) {
    match e
    case PacketIn(pol, f, now) =>
      var p := Packet(lim, pol, s, f, now).1.path;
      && f.l3.Ip?
      && (((p.Accepted? || p.AlgHit?) && f.l3.h.FlowKey() == k) || (p.DnatHit? && DnatKeyFor(pol, f.l3.h) == k))
    case EgressOut(h, _) => h.FlowKey().Reverse() == k
    case _ => false
  }

  /** The packet passes on the fast path of the entry `k`. */
  predicate Hits(lim: Limits, s: State, e: Event, k: FiveTuple) {
    e.PacketIn? && HitKey(e.f, Packet(lim, e.pol, s, e.f, e.now).1.path) == Some(k)
  }

  function HitKey(f: Frame, p: Path): Option<FiveTuple> {
    if p.CtForward? && f.l3.Ip? then Some(f.l3.h.FlowKey())
    else if p.CtReverse? && f.l3.Ip? then Some(f.l3.h.FlowKey().Reverse())
    else None
  }

  predicate Sights(lim: Limits, s: State, e: Event, k: FiveTuple) {
    Creates(lim, s, e, k) || Hits(lim, s, e, k)
  }

  /** The table changes at `k` exactly when `k` is sighted, and then remembers the time. */
  lemma PacketSights(lim: Limits, pol: Policy, s: State, f: Frame, now: u64, k: FiveTuple)
    ensures var e, ct' := PacketIn(pol, f, now), Packet(lim, pol, s, f, now).0.ct;
            && (Sights(lim, s, e, k) ==> k in ct' && ct'[k].lastSeen == now)
            && (!Sights(lim, s, e, k) ==> (k in ct' <==> k in s.ct) && (k in ct' ==> ct'[k] == s.ct[k]))
            && (Hits(lim, s, e, k) ==> Live(lim.timeouts, s.ct, k, now))
  {
    var early, found := EarlyPath(pol, s.frag, f, now), LookUpFrame(lim.timeouts, s.ct, f, now);
    EarlyPathOnly(pol, s.frag, f, now);
    DecideEffect(lim, pol, s.aux, early, found, f, now);
  }

  lemma StepSights(lim: Limits, s: State, e: Event, k: FiveTuple)
    ensures var ct' := Step(lim, s, e).0.ct;
            && (Sights(lim, s, e, k) ==> k in ct' && ct'[k].lastSeen == e.now)
            && (!Sights(lim, s, e, k) && k in ct' ==> k in s.ct && ct'[k] == s.ct[k])
            && (Hits(lim, s, e, k) ==> Live(lim.timeouts, s.ct, k, e.now))
  {
    if e.PacketIn? { PacketSights(lim, e.pol, s, e.f, e.now, k); }
  }

  /** The last event of the run that sighted `k`. */
  function LastSighting(lim: Limits, s: State, es: seq<Event>, k: FiveTuple): (i: Option<nat>)
    ensures i.Some? ==> i.value < |es|
  {
    if es == [] then None
    else if Sights(lim, After(lim, s, es[..|es| - 1]), es[|es| - 1], k) then Some(|es| - 1)
    else LastSighting(lim, s, es[..|es| - 1], k)
  }

  /** The last event of the run that created `k`. */
  function LastCreation(lim: Limits, s: State, es: seq<Event>, k: FiveTuple): (i: Option<nat>)
    ensures i.Some? ==> i.value < |es|
  {
    if es == [] then None
    else if Creates(lim, After(lim, s, es[..|es| - 1]), es[|es| - 1], k) then Some(|es| - 1)
    else LastCreation(lim, s, es[..|es| - 1], k)
  }

  /** Every tracked entry was created, and remembers when it was last sighted. */
  lemma {:induction false} EntriesHaveOrigins(lim: Limits, s: State, es: seq<Event>, k: FiveTuple)
    requires Fresh(s) && k in After(lim, s, es).ct
    ensures LastCreation(lim, s, es, k).Some? && LastSighting(lim, s, es, k).Some?
    ensures LastCreation(lim, s, es, k).value <= LastSighting(lim, s, es, k).value
    ensures After(lim, s, es).ct[k].lastSeen == es[LastSighting(lim, s, es, k).value].now
  {
    var front, e := es[..|es| - 1], es[|es| - 1];
    StepSights(lim, After(lim, s, front), e, k);
    if !Creates(lim, After(lim, s, front), e, k) {
      EntriesHaveOrigins(lim, s, front, k);
    }
  }

  lemma {:induction false} LastCreationCreates(lim: Limits, s: State, es: seq<Event>, k: FiveTuple)
    requires LastCreation(lim, s, es, k).Some?
    ensures var c := LastCreation(lim, s, es, k).value; Creates(lim, After(lim, s, es[..c]), es[c], k)
  {
    var front, c := es[..|es| - 1], LastCreation(lim, s, es, k).value;
    if c < |front| {
      LastCreationCreates(lim, s, front, k);
      assert front[..c] == es[..c];
    }
  }

  lemma {:induction false} LastCreationStays(lim: Limits, s: State, es: seq<Event>, k: FiveTuple, j: nat)
    requires LastCreation(lim, s, es, k).Some? && LastCreation(lim, s, es, k).value < j <= |es|
    ensures LastCreation(lim, s, es[..j], k) == LastCreation(lim, s, es, k)
    decreases |es|
  {
    if j == |es| {
      assert es[..j] == es;
    } else {
      assert es[..|es| - 1][..j] == es[..j];
      LastCreationStays(lim, s, es[..|es| - 1], k, j);
    }
  }

  /** The hit of `k` at position `j` came within the timeout, of the state then held, of the sighting
      of `k` before it, itself no earlier than position `c`. */
  predicate SeenInTime(lim: Limits, s: State, es: seq<Event>, c: nat, j: nat, k: FiveTuple)
    requires j < |es|
  {
    var m, ct := LastSighting(lim, s, es[..j], k), After(lim, s, es[..j]).ct;
    && m.Some? && c <= m.value < j && k in ct
    && !Expired(lim.timeouts, ct[k].state, es[m.value].now, es[j].now)
  }

  lemma HitInTime(lim: Limits, s: State, es: seq<Event>, c: nat, j: nat, k: FiveTuple)
    requires Fresh(s) && j < |es| && Hits(lim, After(lim, s, es[..j]), es[j], k)
    requires LastCreation(lim, s, es[..j], k) == Some(c)
    ensures SeenInTime(lim, s, es, c, j, k)
  {
    StepSights(lim, After(lim, s, es[..j]), es[j], k);
    EntriesHaveOrigins(lim, s, es[..j], k);
  }

  /** A hit comes after a creation of the entry. */
  lemma HitHasOrigin(lim: Limits, s: State, es: seq<Event>, n: nat, k: FiveTuple) returns (c: nat)
    requires Fresh(s) && n < |es| && Hits(lim, After(lim, s, es[..n]), es[n], k)
    ensures c < n && LastCreation(lim, s, es[..n], k) == Some(c) && Creates(lim, After(lim, s, es[..c]), es[c], k)
  {
    var front := es[..n];
    StepSights(lim, After(lim, s, front), es[n], k);
    EntriesHaveOrigins(lim, s, front, k);
    c := LastCreation(lim, s, front, k).value;
    LastCreationCreates(lim, s, front, k);
    assert front[..c] == es[..c];
  }

  lemma CreationStands(lim: Limits, s: State, es: seq<Event>, n: nat, k: FiveTuple, c: nat, j: nat)
    requires n <= |es| && LastCreation(lim, s, es[..n], k) == Some(c) && c < j <= n
    ensures LastCreation(lim, s, es[..j], k) == Some(c)
  {
    LastCreationStays(lim, s, es[..n], k, j);
    assert es[..n][..j] == es[..j];
  }

  /** Provenance: a packet passed on the fast path of `k` at position `n` comes after an event that
      created `k`, and from there to `n` every pass of `k` was seen in time. */
  lemma Provenance(lim: Limits, s: State, es: seq<Event>, n: nat, k: FiveTuple) returns (c: nat)
    requires Fresh(s) && n < |es| && Hits(lim, After(lim, s, es[..n]), es[n], k)
    ensures c < n && Creates(lim, After(lim, s, es[..c]), es[c], k)
    ensures forall j | c < j <= n && Hits(lim, After(lim, s, es[..j]), es[j], k) :: SeenInTime(lim, s, es, c, j, k)
  {
    c := HitHasOrigin(lim, s, es, n, k);
    forall j | c < j <= n && Hits(lim, After(lim, s, es[..j]), es[j], k)
      ensures SeenInTime(lim, s, es, c, j, k)
    {
      CreationStands(lim, s, es, n, k, c, j);
      HitInTime(lim, s, es, c, j, k);
    }
  }
}
