/** What one packet can do to the connection table, its counters and the fragment table,
    by the path it took: the summary the whole-run theorems are proved from. */
module Effects {
  import opened Types
  import opened Conntrack
  import opened Pipeline

  /** A key built from packet addresses: IPv4 keys are zero past the fourth byte. */
  predicate WellFormedKey(k: FiveTuple) {
    || k.family == FAMILY_IPV6
    || (k.family == FAMILY_IPV4 && k.srcIp[4..] == ZEROS_12 && k.dstIp[4..] == ZEROS_12)
  }

  /** The packet refreshed the live entry `v` of key `k`. */
  predicate Refreshes(s: Aux, k: FiveTuple, v: CtValue, h: Header, reply: bool, len: u32, now: u64, o: Outcome) {
    var to := NextState(h.proto, h.tcp, reply, v.state);
    && o.write == Some(CtWrite(k, Refreshed(v, to, reply, h.fragmented, len, now)))
    && o.aux.counts == GiveBack(s.counts, k.Source(), v, to)
  }

  predicate TableEffect(lim: Limits, pol: Policy, s: Aux, found: Lookup, f: Frame, now: u64, o: Outcome) {
    var p := o.verdict.path;
    if !p.CtForward? && !p.CtReverse? && !p.DnatHit? && !p.AlgHit? && !p.Accepted? then
      o.write.None? && o.aux.counts == s.counts
    else
      f.l3.Ip? && WriteEffect(lim, pol, s, found, f.l3.h, f.len, now, o)
  }

  predicate WriteEffect(lim: Limits, pol: Policy, s: Aux, found: Lookup, h: Header, len: u32, now: u64, o: Outcome) {
    var p := o.verdict.path;
    if p.CtForward? then found.Forward? && Refreshes(s, h.FlowKey(), found.entry, h, false, len, now, o)
    else if p.CtReverse? then found.Backward? && Refreshes(s, h.FlowKey().Reverse(), found.entry, h, true, len, now, o)
    else if p.Accepted? then found.Unknown? && Accepts(lim, s, h, len, now, o)
    else
      && found.Unknown? && o.aux.counts == s.counts
      && o.write == Some(if p.AlgHit? then CtWrite(h.FlowKey(), NewCtValue(InitialState(h.proto, h.tcp), now, len))
                         else CtWrite(DnatKeyFor(pol, h), NatReply(now)))
  }

  /** The reply key of the forwarding rule that applies to a packet. */
  function DnatKeyFor(pol: Policy, h: Header): FiveTuple {
    if DnatKeyOf(h) in pol.dnat then DnatReplyKey(h, pol.dnat[DnatKeyOf(h)]) else h.FlowKey()
  }

  /** The packet created the entry of a new flow, within the limits of its source. */
  predicate Accepts(lim: Limits, s: Aux, h: Header, len: u32, now: u64, o: Outcome) {
    && o.write == Some(CtWrite(h.FlowKey(), NewEntry(lim, h, len, now)))
    && (CountsSyn(lim, h) ==> HalfOpenFits(lim, s.counts.syn, h.SrcKey()))
    && ConnFits(lim, s.counts.conn, h.SrcKey())
    && o.aux.counts == Counted(lim, s.counts, h)
  }

  lemma ReplyKeyWellFormed(pol: Policy, h: Header)
    ensures WellFormedKey(DnatKeyFor(pol, h))
  {
    FlowKeyWellFormed(h);
    var k := DnatKeyFor(pol, h);
    assert DnatKeyOf(h) in pol.dnat ==> k.srcIp[4..] == ZEROS_12 && k.dstIp[4..] == ZEROS_12;
  }

  lemma FlowKeyWellFormed(h: Header)
    ensures WellFormedKey(h.FlowKey()) && h.FlowKey().Source() == h.SrcKey()
  {
    if h.isV4 {
      assert h.FlowKey().srcIp[4..] == ZEROS_12 && h.FlowKey().dstIp[4..] == ZEROS_12;
    }
  }

  lemma TallyKeyIsSource(k: FiveTuple)
    requires WellFormedKey(k)
    ensures TallyKey(k) == k.Source() && WellFormedKey(k.Reverse())
  {
    assert k.srcIp == k.srcIp[..4] + k.srcIp[4..];
  }

  lemma AdmitEffect(lim: Limits, pol: Policy, s: Aux, f: Frame, h: Header, mark: Option<byte>, now: u64)
    requires f.l3 == Ip(h)
    ensures TableEffect(lim, pol, s, Unknown, f, now, Admit(lim, pol, s, f, h, mark, now))
  {
  }

  lemma TrackEffect(lim: Limits, pol: Policy, s: Aux, found: Lookup, f: Frame, h: Header, mark: Option<byte>, now: u64)
    requires f.l3 == Ip(h)
    ensures TableEffect(lim, pol, s, found, f, now, Track(lim, pol, s, found, f, h, mark, now))
  {
    if found.Unknown? {
      AdmitEffect(lim, pol, s, f, h, mark, now);
      AdmitEffect(lim, pol, s.(alg := AlgCheck(s.alg, h, now).0), f, h, mark, now);
    }
  }

  lemma DecideEffect(lim: Limits, pol: Policy, s: Aux, early: Option<Path>, found: Lookup, f: Frame, now: u64)
    requires if early.None? then f.l3.Ip? else EarlyOnly(early.value)
    ensures TableEffect(lim, pol, s, found, f, now, Decide(lim, pol, s, early, found, f, now))
  {
    if early.None? {
      var h := f.l3.h;
      var s1 := s.(rate := RateCheck(s.rate, h.SrcKey(), now).0);
      var s2 := s1.(qos := QosCheck(lim, s1.qos, f, h, now).0);
      TrackEffect(lim, pol, s2, found, f, h, QosMark(lim, f, h), now);
    }
  }

  /** The paths decided before the rate stages. */
  predicate EarlyOnly(p: Path) {
    match p
    case NoVif | NotIp | Malformed | Blocked | FragDropped | FragKnown | FragOrphan | FragBypass
      | NdFiltered | Allowed | LocalDestination => true
    case _ => false
  }

  lemma EarlyPathOnly(pol: Policy, frag: FragTable, f: Frame, now: u64)
    ensures var early := EarlyPath(pol, frag, f, now);
            if early.None? then f.l3.Ip? else EarlyOnly(early.value)
  {
  }
}
