/** The daemon's reconcile pass: its counters are exact tallies, and it is the one pass that sees
    whether expired entries were pruned. */
module Reconcile {
  import opened Types
  import opened Conntrack
  import opened Pipeline
  import opened Sets

  /** What a tally says of a source: how many of the keys are its own, and no entry for none. */
  lemma TallyOf(keys: set<FiveTuple>, src: IpKey)
    ensures CountOf(Tally(keys), src) == Min(|KeysFrom(keys, src)|, MAX_U32)
    ensures src in Tally(keys) <==> KeysFrom(keys, src) != {}
  {
    if src in Tally(keys) {
      var k :| k in keys && TallyKey(k) == src;
      assert k in KeysFrom(keys, src);
    }
    if k :| k in KeysFrom(keys, src) {
      assert src in Tally(keys);
    }
  }

  /** One more key adds one to its source, saturating, and creates the source's entry if need be. */
  lemma TallyAdd(keys: set<FiveTuple>, k: FiveTuple)
    requires k !in keys
    ensures Tally(keys + {k}) == Tally(keys)[TallyKey(k) := SaturatingAdd32(CountOf(Tally(keys), TallyKey(k)), 1)]
  {
    var src, more := TallyKey(k), keys + {k};
    var a, b := Tally(more), Tally(keys)[src := SaturatingAdd32(CountOf(Tally(keys), src), 1)];
    TallyOf(keys, src);
    TallyOf(more, src);
    assert KeysFrom(more, src) == KeysFrom(keys, src) + {k};
    assert a.Keys == b.Keys;
    forall x | x in a ensures a[x] == b[x] {
      if x != src {
        TallyOf(keys, x);
        TallyOf(more, x);
        assert KeysFrom(more, x) == KeysFrom(keys, x);
      }
    }
  }

  /** The entries of one source that are its own flows, or its own half-open flows. */
  function OwnFlows(ct: CtTable, src: IpKey, halfOpen: bool): set<FiveTuple> {
    set k | k in ct && !ct[k].isNat && (halfOpen ==> ct[k].state.HalfOpen()) && TallyKey(k) == src
  }

  /** After a reconcile each source's counters are exactly its number of own flows and of own half-open
      flows, and no other source has a counter. */
  lemma ReconcileExact(s: State, src: IpKey)
    ensures var cs, own, half := ReconcileCounts(s).aux.counts, OwnFlows(s.ct, src, false), OwnFlows(s.ct, src, true);
            && CountOf(cs.conn, src) == Min(|own|, MAX_U32) && (src in cs.conn <==> own != {})
            && CountOf(cs.syn, src) == Min(|half|, MAX_U32) && (src in cs.syn <==> half != {})
  {
    TallyOf(OwnKeys(s.ct), src);
    TallyOf(HalfOpenKeys(s.ct), src);
    assert KeysFrom(OwnKeys(s.ct), src) == OwnFlows(s.ct, src, false);
    assert KeysFrom(HalfOpenKeys(s.ct), src) == OwnFlows(s.ct, src, true);
  }

  /** A prune just before a reconcile changes the counters exactly when it removes an own flow
      (in a table no larger than the counters can count). */
  lemma ReconcileSeesPruneIff(t: Timeouts, s: State, now: u64)
    requires |s.ct| <= MAX_U32
    ensures ReconcileCounts(s.(ct := PruneTable(t, s.ct, now))).aux.counts == ReconcileCounts(s).aux.counts
            <==> forall k | k in s.ct && !s.ct[k].isNat :: Live(t, s.ct, k, now)
  {
    var small := PruneTable(t, s.ct, now);
    if k :| k in s.ct && !s.ct[k].isNat && !Live(t, s.ct, k, now) {
      var src := TallyKey(k);
      var before, after := KeysFrom(OwnKeys(s.ct), src), KeysFrom(OwnKeys(small), src);
      StrictSubsetSmaller(after, before, k);
      TableBoundsKeys(s.ct, before);
      TallyOf(OwnKeys(s.ct), src);
      TallyOf(OwnKeys(small), src);
    } else {
      assert OwnKeys(small) == OwnKeys(s.ct) && HalfOpenKeys(small) == HalfOpenKeys(s.ct);
    }
  }

  lemma TableBoundsKeys(ct: CtTable, keys: set<FiveTuple>)
    requires keys <= ct.Keys
    ensures |keys| <= |ct|
  {
    assert ct.Keys == keys + (ct.Keys - keys);
    assert |ct.Keys| == |ct|;
  }
}
