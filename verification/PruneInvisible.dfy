/** Pruning expired entries cannot be observed: connections never, fragment records when no policy waits
    for them longer than the daemon does. */
module PruneInvisible {
  import opened Types
  import opened Conntrack
  import opened Pipeline
  import opened Runs

  /** `None`: fragment prunes are part of the run. `Some(secs)`: they are left out with the others, and
      records older than `secs` seconds do not matter. */
  type Patience = Option<nat>

  /** Counters, limiters and statistics are equal, and so are the entries unexpired at `now`. */
  ghost predicate Same(t: Timeouts, wait: Patience, a: State, b: State, now: u64) {
    && a.aux == b.aux && a.stats == b.stats
    && SameLive(t, a.ct, b.ct, now) && SameFragments(wait, a.frag, b.frag, now)
  }

  ghost predicate SameLive(t: Timeouts, a: CtTable, b: CtTable, now: u64) {
    forall k :: SameAt(t, a, b, k, now)
  }

  predicate SameAt(t: Timeouts, a: CtTable, b: CtTable, k: FiveTuple, now: u64) {
    (Live(t, a, k, now) <==> Live(t, b, k, now)) && (Live(t, a, k, now) ==> a[k] == b[k])
  }

  ghost predicate SameFragments(wait: Patience, a: FragTable, b: FragTable, now: u64) {
    if wait.None? then a == b else forall k :: SameRecord(wait.value, a, b, k, now)
  }

  predicate Recent(secs: nat, frag: FragTable, k: FragKey, now: u64) {
    k in frag && (now <= frag[k] || now - frag[k] <= secs * NANOS_PER_SEC)
  }

  predicate SameRecord(secs: nat, a: FragTable, b: FragTable, k: FragKey, now: u64) {
    (Recent(secs, a, k, now) <==> Recent(secs, b, k, now)) && (Recent(secs, a, k, now) ==> a[k] == b[k])
  }

  /** When fragment prunes are left out: no policy's timeout is longer than `secs`, nor any prune's shorter. */
  predicate Suits(wait: Patience, e: Event) {
    wait.Some? ==>
      && (e.PacketIn? ==> e.pol.fragTimeout <= wait.value)
      && (e.PruneFrag? ==> wait.value <= e.timeoutSecs)
  }

  lemma SameLater(t: Timeouts, wait: Patience, a: State, b: State, now: u64, later: u64)
    requires Same(t, wait, a, b, now) && now <= later
    ensures Same(t, wait, a, b, later)
  {
    forall k ensures SameAt(t, a.ct, b.ct, k, later) {
      assert SameAt(t, a.ct, b.ct, k, now);
      if Live(t, a.ct, k, later) { ExpiredStays(t, a.ct, k, now, later); }
      if Live(t, b.ct, k, later) { ExpiredStays(t, b.ct, k, now, later); }
    }
    if wait.Some? {
      forall k ensures SameRecord(wait.value, a.frag, b.frag, k, later) {
        assert SameRecord(wait.value, a.frag, b.frag, k, now);
      }
    }
  }

  /** Writing the same entry under the same key keeps two tables alike. */
  lemma SameInsert(t: Timeouts, a: CtTable, b: CtTable, k: FiveTuple, v: CtValue, now: u64)
    requires SameLive(t, a, b, now)
    ensures SameLive(t, a[k := v], b[k := v], now)
  {
    var a', b' := a[k := v], b[k := v];
    forall x ensures SameAt(t, a', b', x, now) {
      assert SameAt(t, a, b, x, now);
    }
  }

  lemma SameRecording(wait: Patience, a: FragTable, b: FragTable, f: Frame, p: Path, now: u64)
    requires SameFragments(wait, a, b, now)
    ensures SameFragments(wait, TrackFragment(a, f, p, now), TrackFragment(b, f, p, now), now)
  {
    if wait.Some? {
      var a', b' := TrackFragment(a, f, p, now), TrackFragment(b, f, p, now);
      forall k ensures SameRecord(wait.value, a', b', k, now) {
        assert SameRecord(wait.value, a, b, k, now);
      }
    }
  }

  /** One event keeps two like states alike and decides alike. Only a reconcile looks at expired entries. */
  lemma StepSame(lim: Limits, wait: Patience, a: State, b: State, e: Event)
    requires Same(lim.timeouts, wait, a, b, e.now) && !e.Reconcile? && !LeftOut(wait, e) && Suits(wait, e)
    ensures Step(lim, a, e).1 == Step(lim, b, e).1
    ensures Same(lim.timeouts, wait, Step(lim, a, e).0, Step(lim, b, e).0, e.now)
  {
    match e
    case PacketIn(pol, f, now) => PacketSame(lim, wait, pol, a, b, f, now);
    case EgressOut(h, now) => SameInsert(lim.timeouts, a.ct, b.ct, h.FlowKey().Reverse(), NatReply(now), now);
    case DeleteSessions(keys, now) =>
      forall k ensures SameAt(lim.timeouts, a.ct - keys, b.ct - keys, k, now) {
        assert SameAt(lim.timeouts, a.ct, b.ct, k, now);
      }
    case _ =>
  }

  lemma EarlySame(wait: Patience, pol: Policy, a: FragTable, b: FragTable, f: Frame, now: u64)
    requires SameFragments(wait, a, b, now) && (wait.Some? ==> pol.fragTimeout <= wait.value)
    ensures EarlyPath(pol, a, f, now) == EarlyPath(pol, b, f, now)
  {
    if f.l3.Ip? && wait.Some? {
      assert SameRecord(wait.value, a, b, f.l3.h.FragmentKey(), now);
      assert FragmentPath(pol, a, f.l3.h, now) == FragmentPath(pol, b, f.l3.h, now);
    }
  }

  lemma PacketSame(lim: Limits, wait: Patience, pol: Policy, a: State, b: State, f: Frame, now: u64)
    requires Same(lim.timeouts, wait, a, b, now) && (wait.Some? ==> pol.fragTimeout <= wait.value)
    ensures Packet(lim, pol, a, f, now).1 == Packet(lim, pol, b, f, now).1
    ensures Same(lim.timeouts, wait, Packet(lim, pol, a, f, now).0, Packet(lim, pol, b, f, now).0, now)
  {
    if f.l3.Ip? {
      assert SameAt(lim.timeouts, a.ct, b.ct, f.l3.h.FlowKey(), now);
      assert SameAt(lim.timeouts, a.ct, b.ct, f.l3.h.FlowKey().Reverse(), now);
    }
    EarlySame(wait, pol, a.frag, b.frag, f, now);
    var found := LookUpFrame(lim.timeouts, a.ct, f, now);
    assert found == LookUpFrame(lim.timeouts, b.ct, f, now);
    var o := Decide(lim, pol, a.aux, EarlyPath(pol, a.frag, f, now), found, f, now);
    SameRecording(wait, a.frag, b.frag, f, o.verdict.path, now);
    if o.write.Some? {
      SameInsert(lim.timeouts, a.ct, b.ct, o.write.value.key, o.write.value.value, now);
    }
  }

  /** The events that make no difference. */
  predicate LeftOut(wait: Patience, e: Event) {
    e.Prune? || (wait.Some? && e.PruneFrag?)
  }

  lemma PruneStepSame(lim: Limits, wait: Patience, a: State, b: State, e: Event)
    requires Same(lim.timeouts, wait, a, b, e.now) && LeftOut(wait, e) && Suits(wait, e)
    ensures Said(Step(lim, a, e).1) == []
    ensures Same(lim.timeouts, wait, Step(lim, a, e).0, b, e.now)
  {
    if e.Prune? {
      var a' := PruneTable(lim.timeouts, a.ct, e.now);
      forall k ensures SameAt(lim.timeouts, a', b.ct, k, e.now) {
        assert SameAt(lim.timeouts, a.ct, b.ct, k, e.now);
      }
    } else {
      var a' := PruneFragments(a.frag, e.timeoutSecs, e.now);
      forall k ensures SameRecord(wait.value, a', b.frag, k, e.now) {
        assert SameRecord(wait.value, a.frag, b.frag, k, e.now);
      }
    }
  }

  function WithoutPrunes(wait: Patience, es: seq<Event>): seq<Event> {
    if es == [] then []
    else WithoutPrunes(wait, es[..|es| - 1]) + (if LeftOut(wait, es[|es| - 1]) then [] else [es[|es| - 1]])
  }

  /** The two runs agree so far. */
  ghost predicate Agree(lim: Limits, wait: Patience, a: State, b: State, es: seq<Event>, es': seq<Event>, now: u64) {
    && Verdicts(lim, a, es) == Verdicts(lim, b, es')
    && Same(lim.timeouts, wait, After(lim, a, es), After(lim, b, es'), now)
  }

  ghost predicate Ordinary(wait: Patience, es: seq<Event>) {
    forall e | e in es :: !e.Reconcile? && Suits(wait, e)
  }

  lemma OrdinaryFront(wait: Patience, es: seq<Event>)
    requires Ordinary(wait, es) && es != []
    ensures Ordinary(wait, es[..|es| - 1])
    ensures !es[|es| - 1].Reconcile? && Suits(wait, es[|es| - 1])
  {
    assert es[|es| - 1] in es;
  }

  lemma AgreeAtStart(lim: Limits, wait: Patience, a: State, b: State, now: u64)
    requires Same(lim.timeouts, wait, a, b, now)
    ensures Agree(lim, wait, a, b, [], [], now)
  {
  }

  /** From states alike on unexpired entries, a run and the same run with all its prunes taken out give
      the same verdicts, the same counters and statistics, and tables equal on unexpired entries. */
  lemma {:induction false} PruneInvisible(
    lim: Limits, wait: Patience, a: State, b: State, es: seq<Event>, from: u64)
    requires Same(lim.timeouts, wait, a, b, from)
    requires Clocked(es, from) && Ordinary(wait, es)
    ensures Agree(lim, wait, a, b, es, WithoutPrunes(wait, es), Clock(es, from))
  {
    if es == [] {
      AgreeAtStart(lim, wait, a, b, from);
    } else {
      var front, e := es[..|es| - 1], es[|es| - 1];
      ClockedFront(es, from);
      OrdinaryFront(wait, es);
      PruneInvisible(lim, wait, a, b, front, from);
      OneMoreEvent(lim, wait, a, b, front, WithoutPrunes(wait, front), e, Clock(front, from));
      assert es == front + [e];
    }
  }

  lemma OneMoreEvent(
    lim: Limits, wait: Patience, a: State, b: State, es: seq<Event>, es': seq<Event>, e: Event, clock: u64)
    requires !e.Reconcile? && Suits(wait, e) && clock <= e.now
    requires Agree(lim, wait, a, b, es, es', clock)
    ensures Agree(lim, wait, a, b, es + [e], es' + (if LeftOut(wait, e) then [] else [e]), e.now)
  {
    SameLater(lim.timeouts, wait, After(lim, a, es), After(lim, b, es'), clock, e.now);
    RunSnoc(lim, a, es, e);
    if LeftOut(wait, e) {
      PruneStepSame(lim, wait, After(lim, a, es), After(lim, b, es'), e);
      assert es' + [] == es';
    } else {
      RunSnoc(lim, b, es', e);
      StepSame(lim, wait, After(lim, a, es), After(lim, b, es'), e);
    }
  }

  lemma SameThrough(t: Timeouts, wait: Patience, a: State, b: State, c: State, now: u64)
    requires Same(t, wait, a, c, now) && Same(t, wait, b, c, now)
    ensures Same(t, wait, a, b, now)
  {
    forall k ensures SameAt(t, a.ct, b.ct, k, now) {
      assert SameAt(t, a.ct, c.ct, k, now) && SameAt(t, b.ct, c.ct, k, now);
    }
    if wait.Some? {
      forall k ensures SameRecord(wait.value, a.frag, b.frag, k, now) {
        assert SameRecord(wait.value, a.frag, c.frag, k, now) && SameRecord(wait.value, b.frag, c.frag, k, now);
      }
    }
  }

  lemma SameAsItself(t: Timeouts, wait: Patience, s: State, now: u64)
    ensures Same(t, wait, s, s, now)
  {
  }

  /** So two runs that differ only in when, and how often, the daemon prunes cannot be told apart. */
  lemma PruneScheduleIrrelevant(
    lim: Limits, wait: Patience, s: State, es: seq<Event>, es': seq<Event>, from: u64, now: u64)
    requires Clocked(es, from) && Clocked(es', from) && WithoutPrunes(wait, es) == WithoutPrunes(wait, es')
    requires Ordinary(wait, es) && Ordinary(wait, es') && Clock(es, from) <= now && Clock(es', from) <= now
    ensures Verdicts(lim, s, es) == Verdicts(lim, s, es')
    ensures Same(lim.timeouts, wait, After(lim, s, es), After(lim, s, es'), now)
  {
    SameAsItself(lim.timeouts, wait, s, from);
    PruneInvisible(lim, wait, s, s, es, from);
    PruneInvisible(lim, wait, s, s, es', from);
    var a, b, c := After(lim, s, es), After(lim, s, es'), After(lim, s, WithoutPrunes(wait, es));
    SameLater(lim.timeouts, wait, a, c, Clock(es, from), now);
    SameLater(lim.timeouts, wait, b, c, Clock(es', from), now);
    SameThrough(lim.timeouts, wait, a, b, c, now);
  }

  /** A prune after `secs` seconds takes no record that the policy still knows, then or later. */
  ghost predicate HidesNothing(pol: Policy, secs: u64) {
    forall frag, k, pruned: u64, now: u64 | pruned <= now :: KeepsKnown(pol, frag, k, secs, pruned, now)
  }

  predicate KeepsKnown(pol: Policy, frag: FragTable, k: FragKey, secs: u64, pruned: u64, now: u64) {
    FragmentKnown(pol, frag, k, now) ==> FragmentKnown(pol, PruneFragments(frag, secs, pruned), k, now)
  }

  /** Fragment prunes need their condition: they hide nothing exactly when the policy waits no longer than they do. */
  lemma FragmentPruneInvisibleIff(pol: Policy, secs: u64)
    ensures HidesNothing(pol, secs) <==> pol.fragTimeout <= secs
  {
    if pol.fragTimeout > secs {
      var k := FragKey(FAMILY_IPV4, IPPROTO_UDP, AddrV4(0), AddrV4(0));
      var now: u64 := secs * NANOS_PER_SEC + 1;
      assert !KeepsKnown(pol, map[k := 0], k, secs, now, now);
    } else {
      forall frag, k, pruned: u64, now: u64 | pruned <= now ensures KeepsKnown(pol, frag, k, secs, pruned, now) {
        assert pol.fragTimeout * NANOS_PER_SEC <= Min(secs * NANOS_PER_SEC, MAX_U64);
      }
    }
  }

  /** The daemon's own pair: it prunes after its configured timeout, and has the data plane wait for the same
      time, at most 255 seconds. */
  predicate DaemonPair(secs: u64, e: Event) {
    && (e.PacketIn? ==> e.pol.fragTimeout == Min(secs, 255))
    && (e.PruneFrag? ==> e.timeoutSecs == secs)
  }

  lemma DaemonPairHidesNothing(pol: Policy, secs: u64)
    requires pol.fragTimeout == Min(secs, 255)
    ensures HidesNothing(pol, secs)
  {
    FragmentPruneInvisibleIff(pol, secs);
  }

  /** So in the daemon's hands no prune at all, of connections or of fragments, can be observed. */
  lemma DaemonPrunesInvisible(lim: Limits, secs: u64, s: State, es: seq<Event>, from: u64)
    requires Clocked(es, from) && forall e | e in es :: !e.Reconcile? && DaemonPair(secs, e)
    ensures Agree(lim, Some(secs), s, s, es, WithoutPrunes(Some(secs), es), Clock(es, from))
  {
    SameAsItself(lim.timeouts, Some(secs), s, from);
    assert forall e | e in es :: Suits(Some(secs), e);
    PruneInvisible(lim, Some(secs), s, s, es, from);
  }

  // ---------------------------------------------------------------- what a prune keeps

  /** A prune keeps exactly the connections not idle for longer than their state's timeout, unchanged. */
  lemma PruneKeepsIff(t: Timeouts, ct: CtTable, now: u64, k: FiveTuple)
    ensures var kept := PruneTable(t, ct, now);
            && (k in kept <==>
                k in ct && var secs := t[ct[k].state.Slot()];
                           secs == 0 || now <= ct[k].lastSeen + secs * NANOS_PER_SEC)
            && (k in kept ==> kept[k] == ct[k])
  {
  }

  /** And exactly the fragment records no older than its timeout. */
  lemma FragmentPruneKeepsIff(frag: FragTable, secs: u64, now: u64, k: FragKey)
    ensures var kept := PruneFragments(frag, secs, now);
            && (k in kept <==> k in frag && now <= frag[k] + Min(secs * NANOS_PER_SEC, MAX_U64))
            && (k in kept ==> kept[k] == frag[k])
  {
  }
}
