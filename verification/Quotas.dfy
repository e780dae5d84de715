/** Per-source quotas hold on every run with fixed limits. */
module Quotas {
  import opened Types
  import opened Conntrack
  import opened Pipeline
  import opened Effects
  import opened Runs
  import opened Sets

  /** The two counters: connections, and half-open connections. */
  datatype Counter = Conn | HalfOpen

  predicate Marked(v: CtValue, c: Counter) {
    !v.isNat && (if c.Conn? then v.countedConn else v.countedSyn)
  }

  /** The entries of a source that are marked as counted. */
  function MarkedKeys(ct: CtTable, src: IpKey, c: Counter): set<FiveTuple> {
    set k | k in ct && Marked(ct[k], c) && k.Source() == src
  }

  function Count(cs: Counts, src: IpKey, c: Counter): u32 {
    CountOf(if c.Conn? then cs.conn else cs.syn, src)
  }

  function Quota(lim: Limits, src: IpKey, c: Counter): u32 {
    if c.Conn? then MaxConns(lim, src) else lim.synMaxHalfOpen
  }

  predicate Within(lim: Limits, ct: CtTable, cs: Counts, src: IpKey, c: Counter) {
    |MarkedKeys(ct, src, c)| <= Min(Count(cs, src, c), Quota(lim, src, c))
  }

  predicate EntryOk(k: FiveTuple, v: CtValue) {
    WellFormedKey(k) && (Marked(v, HalfOpen) ==> v.state.HalfOpen())
  }

  /** The invariant: quotas and counters bound the marked entries, and only half-open entries carry
      the half-open mark. */
  ghost predicate Sound(lim: Limits, ct: CtTable, cs: Counts) {
    && (forall src, c :: Within(lim, ct, cs, src, c))
    && (forall k | k in ct :: EntryOk(k, ct[k]))
  }

  function Contribution(k: FiveTuple, v: CtValue, src: IpKey, c: Counter): nat {
    if Marked(v, c) && k.Source() == src then 1 else 0
  }

  /** Writing one entry changes a source's marked count by what the entry and its predecessor contribute. */
  lemma MarkedAfterInsert(ct: CtTable, k: FiveTuple, v: CtValue, src: IpKey, c: Counter)
    ensures |MarkedKeys(ct[k := v], src, c)|
            == |MarkedKeys(ct, src, c)| - (if k in ct then Contribution(k, ct[k], src, c) else 0)
               + Contribution(k, v, src, c)
  {
    var before, after := MarkedKeys(ct, src, c), MarkedKeys(ct[k := v], src, c);
    assert forall x | x != k :: x in before <==> x in after;
    DifferByOne(before, after, k);
  }

  /** An unmarked entry over anything. */
  lemma InsertUnmarked(lim: Limits, ct: CtTable, cs: Counts, k: FiveTuple, v: CtValue)
    requires Sound(lim, ct, cs) && WellFormedKey(k) && !Marked(v, Conn) && !Marked(v, HalfOpen)
    ensures Sound(lim, ct[k := v], cs)
  {
    var ct' := ct[k := v];
    forall src, c ensures Within(lim, ct', cs, src, c) {
      assert Within(lim, ct, cs, src, c);
      MarkedAfterInsert(ct, k, v, src, c);
    }
  }

  /** A refreshed entry gives back exactly the marks it loses; no decrement meets zero. */
  lemma Refresh(lim: Limits, ct: CtTable, cs: Counts, k: FiveTuple, to: CtState, reply: bool, fragmented: bool,
                len: u32, now: u64)
    requires Sound(lim, ct, cs) && k in ct
    ensures var v := ct[k];
            && Sound(lim, ct[k := Refreshed(v, to, reply, fragmented, len, now)], GiveBack(cs, k.Source(), v, to))
            && (Closes(v, to) ==> Count(cs, k.Source(), Conn) > 0)
            && (LeavesHalfOpen(v, to) ==> Count(cs, k.Source(), HalfOpen) > 0)
  {
    var v := ct[k];
    var w, cs' := Refreshed(v, to, reply, fragmented, len, now), GiveBack(cs, k.Source(), v, to);
    forall c | Marked(v, c) ensures Count(cs, k.Source(), c) > 0 {
      assert Within(lim, ct, cs, k.Source(), c);
      MarkedCounted(lim, ct, cs, k, c);
    }
    assert EntryOk(k, v) && EntryOk(k, w);
    var ct' := ct[k := w];
    forall src, c ensures Within(lim, ct', cs', src, c) {
      assert Within(lim, ct, cs, src, c);
      MarkedAfterInsert(ct, k, w, src, c);
      GivenBack(cs, k, v, to, reply, fragmented, len, now, src, c);
    }
  }

  /** A marked entry is counted. */
  lemma MarkedCounted(lim: Limits, ct: CtTable, cs: Counts, k: FiveTuple, c: Counter)
    requires Within(lim, ct, cs, k.Source(), c) && k in ct && Marked(ct[k], c)
    ensures Count(cs, k.Source(), c) > 0
  {
    assert k in MarkedKeys(ct, k.Source(), c);
  }

  /** What a counter gives back is what the refreshed entry no longer contributes to it. */
  lemma GivenBack(cs: Counts, k: FiveTuple, v: CtValue, to: CtState, reply: bool, fragmented: bool, len: u32, now: u64,
                  src: IpKey, c: Counter)
    requires Marked(v, HalfOpen) ==> v.state.HalfOpen()
    requires Marked(v, c) ==> Count(cs, k.Source(), c) > 0
    ensures Count(GiveBack(cs, k.Source(), v, to), src, c)
            == Count(cs, src, c) - Contribution(k, v, src, c)
               + Contribution(k, Refreshed(v, to, reply, fragmented, len, now), src, c)
  {
  }

  /** A new entry takes a place that its source's quota has left; no increment wraps. */
  lemma AcceptNew(lim: Limits, ct: CtTable, cs: Counts, h: Header, len: u32, now: u64)
    requires Sound(lim, ct, cs) && ConnFits(lim, cs.conn, h.SrcKey())
    requires CountsSyn(lim, h) ==> HalfOpenFits(lim, cs.syn, h.SrcKey())
    ensures Sound(lim, ct[h.FlowKey() := NewEntry(lim, h, len, now)], Counted(lim, cs, h))
    ensures CountsConn(lim, h) ==> Count(Counted(lim, cs, h), h.SrcKey(), Conn) == Count(cs, h.SrcKey(), Conn) + 1
    ensures CountsSyn(lim, h) ==>
              Count(Counted(lim, cs, h), h.SrcKey(), HalfOpen) == Count(cs, h.SrcKey(), HalfOpen) + 1
  {
    var k, v, cs' := h.FlowKey(), NewEntry(lim, h, len, now), Counted(lim, cs, h);
    FlowKeyWellFormed(h);
    var ct' := ct[k := v];
    CountedCounts(lim, cs, h, len, now, h.SrcKey(), Conn);
    CountedCounts(lim, cs, h, len, now, h.SrcKey(), HalfOpen);
    forall src, c ensures Within(lim, ct', cs', src, c) {
      assert Within(lim, ct, cs, src, c);
      MarkedAfterInsert(ct, k, v, src, c);
      CountedCounts(lim, cs, h, len, now, src, c);
    }
  }

  /** The counters of an accepted flow go up by what its entry contributes, and stay within the quotas. */
  lemma CountedCounts(lim: Limits, cs: Counts, h: Header, len: u32, now: u64, src: IpKey, c: Counter)
    requires ConnFits(lim, cs.conn, h.SrcKey()) && (CountsSyn(lim, h) ==> HalfOpenFits(lim, cs.syn, h.SrcKey()))
    ensures var one := Contribution(h.FlowKey(), NewEntry(lim, h, len, now), src, c);
            && Count(Counted(lim, cs, h), src, c) == Count(cs, src, c) + one
            && (one == 1 ==> Count(cs, src, c) < Quota(lim, src, c))
  {
    FlowKeyWellFormed(h);
  }

  lemma PacketKeepsSound(lim: Limits, pol: Policy, s: State, f: Frame, now: u64)
    requires Sound(lim, s.ct, s.aux.counts)
    ensures var s' := Packet(lim, pol, s, f, now).0; Sound(lim, s'.ct, s'.aux.counts)
  {
    var early, found := EarlyPath(pol, s.frag, f, now), LookUpFrame(lim.timeouts, s.ct, f, now);
    EarlyPathOnly(pol, s.frag, f, now);
    DecideEffect(lim, pol, s.aux, early, found, f, now);
    OutcomeKeepsSound(lim, pol, s, found, f, now, Decide(lim, pol, s.aux, early, found, f, now));
  }

  lemma OutcomeKeepsSound(lim: Limits, pol: Policy, s: State, found: Lookup, f: Frame, now: u64, o: Outcome)
    requires Sound(lim, s.ct, s.aux.counts) && found == LookUpFrame(lim.timeouts, s.ct, f, now)
    requires TableEffect(lim, pol, s.aux, found, f, now, o)
    ensures Sound(lim, Written(s.ct, o.write), o.aux.counts)
  {
    var p := o.verdict.path;
    if p.CtForward? || p.CtReverse? {
      var h := f.l3.h;
      var k := if p.CtForward? then h.FlowKey() else h.FlowKey().Reverse();
      Refresh(lim, s.ct, s.aux.counts, k, NextState(h.proto, h.tcp, p.CtReverse?, s.ct[k].state), p.CtReverse?,
              h.fragmented, f.len, now);
    } else if p.Accepted? {
      AcceptNew(lim, s.ct, s.aux.counts, f.l3.h, f.len, now);
    } else if p.DnatHit? || p.AlgHit? {
      FlowKeyWellFormed(f.l3.h);
      ReplyKeyWellFormed(pol, f.l3.h);
      InsertUnmarked(lim, s.ct, s.aux.counts, o.write.value.key, o.write.value.value);
    }
  }

  lemma SubsetKeepsSound(lim: Limits, ct: CtTable, small: CtTable, cs: Counts)
    requires Sound(lim, ct, cs) && forall k | k in small :: k in ct && small[k] == ct[k]
    ensures Sound(lim, small, cs)
  {
    forall src, c ensures Within(lim, small, cs, src, c) {
      assert Within(lim, ct, cs, src, c);
      assert MarkedKeys(small, src, c) <= MarkedKeys(ct, src, c);
      SubsetSize(MarkedKeys(small, src, c), MarkedKeys(ct, src, c));
    }
  }

  /** An exact tally is never below the marked entries, saturated or not. */
  lemma ReconcileKeepsSound(lim: Limits, s: State)
    requires Sound(lim, s.ct, s.aux.counts)
    ensures Sound(lim, s.ct, ReconcileCounts(s).aux.counts)
  {
    var cs := ReconcileCounts(s).aux.counts;
    forall src, c ensures Within(lim, s.ct, cs, src, c) {
      assert Within(lim, s.ct, s.aux.counts, src, c);
      var keys := if c.Conn? then OwnKeys(s.ct) else HalfOpenKeys(s.ct);
      var marked := MarkedKeys(s.ct, src, c);
      forall k | k in marked ensures k in KeysFrom(keys, src) {
        assert EntryOk(k, s.ct[k]);
        TallyKeyIsSource(k);
      }
      SubsetSize(marked, KeysFrom(keys, src));
      if marked != {} {
        var k :| k in marked;
        assert k in KeysFrom(keys, src);
        assert src in Tally(keys);
      }
    }
  }

  lemma StepKeepsSound(lim: Limits, s: State, e: Event)
    requires Sound(lim, s.ct, s.aux.counts)
    ensures var s' := Step(lim, s, e).0; Sound(lim, s'.ct, s'.aux.counts)
  {
    match e
    case PacketIn(pol, f, now) => PacketKeepsSound(lim, pol, s, f, now);
    case EgressOut(h, now) =>
      FlowKeyWellFormed(h);
      TallyKeyIsSource(h.FlowKey());
      InsertUnmarked(lim, s.ct, s.aux.counts, h.FlowKey().Reverse(), NatReply(now));
    case Prune(now) => SubsetKeepsSound(lim, s.ct, PruneTable(lim.timeouts, s.ct, now), s.aux.counts);
    case DeleteSessions(keys, _) => SubsetKeepsSound(lim, s.ct, s.ct - keys, s.aux.counts);
    case Reconcile(_) => ReconcileKeepsSound(lim, s);
    case _ =>
  }

  /** Quotas on every run: per source, entries marked as connections never exceed the counter nor the
      configured maximum, and those marked half-open are half-open and within their limit. */
  lemma {:induction false} QuotasHold(lim: Limits, s: State, es: seq<Event>)
    requires Fresh(s)
    ensures var s' := After(lim, s, es); Sound(lim, s'.ct, s'.aux.counts)
  {
    if es != [] {
      var front, e := es[..|es| - 1], es[|es| - 1];
      QuotasHold(lim, s, front);
      StepKeepsSound(lim, After(lim, s, front), e);
    }
  }

  /** On every run, an entry that gives back a count finds it above zero. */
  lemma NoDecrementAtZero(lim: Limits, s: State, es: seq<Event>, k: FiveTuple, to: CtState)
    requires Fresh(s) && k in After(lim, s, es).ct
    ensures var s' := After(lim, s, es);
            && (Closes(s'.ct[k], to) ==> CountOf(s'.aux.counts.conn, k.Source()) > 0)
            && (LeavesHalfOpen(s'.ct[k], to) ==> CountOf(s'.aux.counts.syn, k.Source()) > 0)
  {
    QuotasHold(lim, s, es);
    var s' := After(lim, s, es);
    Refresh(lim, s'.ct, s'.aux.counts, k, to, false, false, 0, 0);
  }
}
