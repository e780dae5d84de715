/** What the connection table says of a flow: what a packet writes into it, field by field, and what its
    entries add up to over a run. */
module FlowEntries {
  import opened Types
  import opened Conntrack
  import opened Pipeline
  import opened Effects
  import opened Runs
  import opened PacketMeaning
  import Quotas

  /** The table changes at one key only. */
  predicate OnlyAt(before: CtTable, after: CtTable, k: FiveTuple) {
    k in after && after == before[k := after[k]]
  }

  /** Traffic of one more packet of `len` bytes, in the direction of the key or against it. */
  predicate CountsPacket(v: CtValue, w: CtValue, reply: bool, len: u32) {
    var cap32, cap64 := 0xFFFF_FFFF, 0xFFFF_FFFF_FFFF_FFFF;
    && w.packets == Min(v.packets + 1, cap32)
    && w.pktsOrig == (if reply then v.pktsOrig else Min(v.pktsOrig + 1, cap32))
    && w.pktsRepl == (if reply then Min(v.pktsRepl + 1, cap32) else v.pktsRepl)
    && w.bytesOrig == (if reply then v.bytesOrig else Min(v.bytesOrig + len, cap64))
    && w.bytesRepl == (if reply then Min(v.bytesRepl + len, cap64) else v.bytesRepl)
  }

  /** State, time and flags of the entry after a packet. */
  predicate MovesOn(v: CtValue, w: CtValue, h: Header, reply: bool, now: u64) {
    && w.state == (if h.proto == 6 then TcpStep(h.tcp, reply, v.state) else v.state)
    && w.lastSeen == now && w.isNat == v.isNat && w.hasFragments == (v.hasFragments || h.fragmented)
  }

  /** The half-open mark goes when an own entry stops being half-open, the connection mark when it enters
      TIME_WAIT. */
  predicate MarksFollow(v: CtValue, w: CtValue) {
    && w.countedSyn == (v.countedSyn && (v.isNat || !v.state.HalfOpen() || w.state.HalfOpen()))
    && w.countedConn == (v.countedConn && (v.isNat || !w.state.TimeWait? || v.state.TimeWait?))
  }

  /** Each mark that went is one off its source's counter, if that was above 0; no other counter moves. */
  predicate CountersFollow(before: Counts, after: Counts, src: IpKey, v: CtValue, w: CtValue) {
    && after.syn == (if v.countedSyn && !w.countedSyn then OneLess(before.syn, src) else before.syn)
    && after.conn == (if v.countedConn && !w.countedConn then OneLess(before.conn, src) else before.conn)
  }

  function OneLess(m: map<IpKey, u32>, k: IpKey): map<IpKey, u32> {
    if k in m && m[k] != 0 then m[k := m[k] - 1] else m
  }

  lemma RefreshedMeans(v: CtValue, h: Header, reply: bool, len: u32, now: u64)
    ensures var to := NextState(h.proto, h.tcp, reply, v.state);
            var w := Refreshed(v, to, reply, h.fragmented, len, now);
            CountsPacket(v, w, reply, len) && MovesOn(v, w, h, reply, now) && MarksFollow(v, w)
  {
  }

  lemma GiveBackMeans(c: Counts, src: IpKey, v: CtValue, h: Header, reply: bool, len: u32, now: u64)
    ensures var to := NextState(h.proto, h.tcp, reply, v.state);
            CountersFollow(c, GiveBack(c, src, v, to), src, v, Refreshed(v, to, reply, h.fragmented, len, now))
  {
  }

  /** A packet on the fast path touches the entry it matched and nothing else: the flow's own entry, or the
      entry of the flow it answers. */
  lemma HitWrites(lim: Limits, pol: Policy, s: State, f: Frame, now: u64)
    requires var p := PathOf(lim, pol, s, f, now); f.l3.Ip? && (p.CtForward? || p.CtReverse?)
    ensures var (s', v) := Packet(lim, pol, s, f, now);
            var h, reply := f.l3.h, v.path.CtReverse?;
            var k := if reply then AnswerTo(h) else FlowOf(h);
            && k in s.ct && OnlyAt(s.ct, s'.ct, k)
            && CountsPacket(s.ct[k], s'.ct[k], reply, f.len) && MovesOn(s.ct[k], s'.ct[k], h, reply, now)
            && MarksFollow(s.ct[k], s'.ct[k])
            && CountersFollow(s.aux.counts, s'.aux.counts, k.Source(), s.ct[k], s'.ct[k])
  {
    var h, reply := f.l3.h, PathOf(lim, pol, s, f, now).CtReverse?;
    KeysMeanFields(h);
    PacketEffect(lim, pol, s, f, now);
    var v := s.ct[if reply then AnswerTo(h) else FlowOf(h)];
    RefreshedMeans(v, h, reply, f.len, now);
    GiveBackMeans(s.aux.counts, (if reply then AnswerTo(h) else FlowOf(h)).Source(), v, h, reply, f.len, now);
  }

  /** The summary of `Effects`, for a packet. */
  lemma PacketEffect(lim: Limits, pol: Policy, s: State, f: Frame, now: u64)
    ensures var early, found := EarlyPath(pol, s.frag, f, now), LookUpFrame(lim.timeouts, s.ct, f, now);
            var o := Decide(lim, pol, s.aux, early, found, f, now);
            TableEffect(lim, pol, s.aux, found, f, now, o)
  {
    EarlyPathOnly(pol, s.frag, f, now);
    DecideEffect(lim, pol, s.aux, EarlyPath(pol, s.frag, f, now), LookUpFrame(lim.timeouts, s.ct, f, now), f, now);
  }

  /** An own entry with one packet in its direction, and its marks. */
  predicate StartsFlow(w: CtValue, h: Header, len: u32, now: u64, fragmented: bool, conn: bool, half: bool) {
    && w.state == InitialState(h.proto, h.tcp) && !w.isNat && w.lastSeen == now && w.hasFragments == fragmented
    && w.packets == 0 && w.pktsOrig == 1 && w.pktsRepl == 0 && w.bytesOrig == len && w.bytesRepl == 0
    && w.countedConn == conn && w.countedSyn == half
  }

  function OneMore(m: map<IpKey, u32>, k: IpKey): map<IpKey, u32> {
    m[k := if k in m then (m[k] + 1) % TWO_32 else 1]
  }

  /** An accepted flow gets an entry under its own key, marked and counted as a connection if its source has a
      connection limit, and as half-open if it is a TCP SYN under a half-open limit. */
  lemma AcceptedWrites(lim: Limits, pol: Policy, s: State, f: Frame, now: u64)
    requires PathOf(lim, pol, s, f, now).Accepted?
    ensures f.l3.Ip?
    ensures var s', h, src := Packet(lim, pol, s, f, now).0, f.l3.h, SourceOf(f.l3.h);
            var conn := src in lim.connLimits && lim.connLimits[src] != 0;
            var half := h.proto == 6 && h.tcp.syn && lim.synMaxHalfOpen != 0;
            && OnlyAt(s.ct, s'.ct, FlowOf(h))
            && StartsFlow(s'.ct[FlowOf(h)], h, f.len, now, h.fragmented, conn, half)
            && s'.aux.counts.conn == (if conn then OneMore(s.aux.counts.conn, src) else s.aux.counts.conn)
            && s'.aux.counts.syn == (if half then OneMore(s.aux.counts.syn, src) else s.aux.counts.syn)
  {
    PacketEffect(lim, pol, s, f, now);
    KeysMeanFields(f.l3.h);
  }

  /** An expected FTP data connection gets an uncounted entry. */
  lemma ExpectedWrites(lim: Limits, pol: Policy, s: State, f: Frame, now: u64)
    requires PathOf(lim, pol, s, f, now).AlgHit?
    ensures f.l3.Ip?
    ensures var s', h := Packet(lim, pol, s, f, now).0, f.l3.h;
            && OnlyAt(s.ct, s'.ct, FlowOf(h)) && s'.aux.counts == s.aux.counts
            && StartsFlow(s'.ct[FlowOf(h)], h, f.len, now, false, false, false)
  {
    PacketEffect(lim, pol, s, f, now);
    KeysMeanFields(f.l3.h);
  }

  /** An expectation is used up by the connection it lets in, whichever of the two matched; without a match a
      stale one goes. */
  lemma ExpectationsAfter(s: Aux, h: Header, now: u64)
    requires h.isV4
    ensures var (alg', hit) := AlgCheck(s.alg, h, now);
            var exact, wild := FlowOf(h), FlowOf(h).(srcPort := 0);
            && (hit ==> alg' == s.alg - {exact, wild})
            && (!hit ==> alg' == s.alg - (set k | k in {exact, wild} && k in s.alg && s.alg[k] != 0 && now > s.alg[k]))
  {
    KeysMeanFields(h);
    assert FiveTupleV4(h.srcIp, h.dstIp, h.proto, 0, h.dstPort) == FlowOf(h).(srcPort := 0);
  }

  /** A connection that the FTP helper expects, from one port or from any, gets past prefilter, zones and default
      action until the expectation is over. */
  lemma ExpectedConnectionPasses(
    lim: Limits, s: State, k: FiveTuple, until: u64, since: u64, pol: Policy, f: Frame, now: u64)
    requires f.l3.Ip? && f.l3.h.isV4 && f.l3.h.proto == 6 && pol.ftpAlg
    requires k == FlowOf(f.l3.h) || k == FlowOf(f.l3.h).(srcPort := 0)
    requires until == 0 || now <= until
    requires Unlimited(lim, pol, Step(lim, s, ExpectFtp(k, until, since)).0, f, now)
    ensures PathOf(lim, pol, Step(lim, s, ExpectFtp(k, until, since)).0, f, now).Passes()
  {
    TrackingIff(lim, pol, Step(lim, s, ExpectFtp(k, until, since)).0, f, now);
  }

  /** The entry of a reply that is expected through address translation. */
  predicate ExpectsReply(w: CtValue, now: u64) {
    && w.state.Established? && w.isNat && w.lastSeen == now && !w.hasFragments && !w.countedSyn && w.countedConn
    && w.packets == 0 && w.pktsOrig == 0 && w.pktsRepl == 0 && w.bytesOrig == 0 && w.bytesRepl == 0
  }

  /** A forwarded packet expects the answer of the host it is forwarded to. */
  lemma ForwardedWrites(lim: Limits, pol: Policy, s: State, f: Frame, now: u64)
    requires PathOf(lim, pol, s, f, now).DnatHit?
    ensures f.l3.Ip? && f.l3.h.isV4 && DnatKeyOf(f.l3.h) in pol.dnat
    ensures var s', h := Packet(lim, pol, s, f, now).0, f.l3.h;
            var to := pol.dnat[DnatKeyOf(h)];
            var k := FlowOf(h.(srcIp := to.toIp, dstIp := h.srcIp, srcPort := to.toPort, dstPort := h.srcPort));
            OnlyAt(s.ct, s'.ct, k) && ExpectsReply(s'.ct[k], now) && s'.aux.counts == s.aux.counts
  {
    ForwardingRule(lim, pol, s, f, now);
    PacketEffect(lim, pol, s, f, now);
    var h, to := f.l3.h, pol.dnat[DnatKeyOf(f.l3.h)];
    KeysMeanFields(h.(srcIp := to.toIp, dstIp := h.srcIp, srcPort := to.toPort, dstPort := h.srcPort));
  }

  lemma ForwardingRule(lim: Limits, pol: Policy, s: State, f: Frame, now: u64)
    requires PathOf(lim, pol, s, f, now).DnatHit?
    ensures f.l3.Ip? && f.l3.h.isV4 && DnatKeyOf(f.l3.h) in pol.dnat
  {
    EarlyIffNotReached(pol, s.frag, f, now);
    if ReachesLimiters(pol, f) {
      LimitersIff(lim, pol, s, f, now);
      TrackingIff(lim, pol, s, f, now);
    } else {
      PacketEffect(lim, pol, s, f, now);
      EarlyPathOnly(pol, s.frag, f, now);
    }
  }

  /** So the answer, when it comes in time, passes by the entry that was written for it. */
  lemma AnswerToForwardedIsLive(lim: Limits, pol: Policy, s: State, f: Frame, now: u64, answer: Header, later: u64)
    requires PathOf(lim, pol, s, f, now).DnatHit? && f.l3.Ip? && DnatKeyOf(f.l3.h) in pol.dnat && now <= later
    requires var h, to := f.l3.h, pol.dnat[DnatKeyOf(f.l3.h)];
             && answer.isV4 && answer.srcIp == to.toIp && answer.srcPort == to.toPort
             && answer.dstIp == h.srcIp && answer.dstPort == h.srcPort && answer.proto == h.proto
    requires lim.timeouts[2] == 0 || later - now <= lim.timeouts[2] * NANOS_PER_SEC
    ensures Live(lim.timeouts, Packet(lim, pol, s, f, now).0.ct, FlowOf(answer), later)
  {
    ForwardedWrites(lim, pol, s, f, now);
  }

  /** And likewise the answer to an outbound packet. */
  lemma AnswerToOutboundIsLive(lim: Limits, s: State, h: Header, now: u64, answer: Header, later: u64)
    requires now <= later && FlowOf(answer) == AnswerTo(h)
    requires lim.timeouts[2] == 0 || later - now <= lim.timeouts[2] * NANOS_PER_SEC
    ensures var s' := Egress(s, h, now);
            && OnlyAt(s.ct, s'.ct, AnswerTo(h)) && ExpectsReply(s'.ct[AnswerTo(h)], now) && s' == s.(ct := s'.ct)
            && Live(lim.timeouts, s'.ct, FlowOf(answer), later)
  {
    KeysMeanFields(h);
  }

  // ---------------------------------------------------------------- counts given back

  /** On every run, the packet that completes a handshake establishes its flow, clears the half-open mark and
      takes one off the source's half-open count; the packet that closes a flow does so for connections. */
  lemma CountsGivenBack(lim: Limits, s: State, es: seq<Event>, pol: Policy, f: Frame, now: u64)
    requires Fresh(s) && f.l3.Ip? && f.l3.h.proto == 6
    requires var p := PathOf(lim, pol, After(lim, s, es), f, now); p.CtForward? || p.CtReverse?
    ensures var b, h := After(lim, s, es), f.l3.h;
            var (b', verdict) := Packet(lim, pol, b, f, now);
            var reply := verdict.path.CtReverse?;
            var k := if reply then AnswerTo(h) else FlowOf(h);
            && k in b.ct && k in b'.ct
            && (!b.ct[k].isNat && b.ct[k].state.HalfOpen() && Completes(h.tcp, reply) ==>
                  && b'.ct[k].state.Established? && !b'.ct[k].countedSyn
                  && CountOf(b'.aux.counts.syn, k.Source())
                     == CountOf(b.aux.counts.syn, k.Source()) - (if b.ct[k].countedSyn then 1 else 0))
            && (!b.ct[k].isNat && !b.ct[k].state.TimeWait? && b'.ct[k].state.TimeWait? ==>
                  && !b'.ct[k].countedConn
                  && CountOf(b'.aux.counts.conn, k.Source())
                     == CountOf(b.aux.counts.conn, k.Source()) - (if b.ct[k].countedConn then 1 else 0))
  {
    var b, h := After(lim, s, es), f.l3.h;
    var reply := PathOf(lim, pol, b, f, now).CtReverse?;
    var k := if reply then AnswerTo(h) else FlowOf(h);
    HitWrites(lim, pol, b, f, now);
    StepIff(h.tcp, reply, b.ct[k].state);
    Quotas.NoDecrementAtZero(lim, s, es, k, TcpStep(h.tcp, reply, b.ct[k].state));
  }

  // ---------------------------------------------------------------- fragments

  /** A first fragment that inspection lets through makes its flow known: later fragments of it pass until the
      timeout is over, if their source is not blocked. */
  lemma LaterFragmentsPass(
    lim: Limits, pol: Policy, s: State, f: Frame, now: u64, pol': Policy, f': Frame, later: u64)
    requires f.l3.Ip? && f'.l3.Ip? && OnVif(pol, f) && OnVif(pol', f') && now <= later
    requires f.l3.h.fragmented && f.l3.h.firstFragment && pol.fragPolicy == 2
    requires f'.l3.h.fragmented && !f'.l3.h.firstFragment && pol'.fragPolicy == 2
    requires FragmentsOf(f'.l3.h) == FragmentsOf(f.l3.h) && !IsBlocked(pol', f'.l3.h)
    requires later - now <= pol'.fragTimeout * NANOS_PER_SEC
    requires PathOf(lim, pol, s, f, now).Passes()
    ensures var s' := Packet(lim, pol, s, f, now).0; PathOf(lim, pol', s', f', later).FragKnown?
  {
    KeysMeanFields(f.l3.h);
    FragmentsIff(lim, pol, s, f, now);
    FragmentsIff(lim, pol', Packet(lim, pol, s, f, now).0, f', later);
    UnreadFrames(lim, pol, s, f, now);
  }

  // ---------------------------------------------------------------- what entries add up to

  /** Short of saturation, the packets of an entry are those in its direction and those against it; the
      packet that opened an own flow is counted in its direction only. */
  predicate Balanced(v: CtValue) {
    v.packets < 0xFFFF_FFFF && v.pktsOrig < 0xFFFF_FFFF && v.pktsRepl < 0xFFFF_FFFF ==>
      v.pktsOrig + v.pktsRepl == v.packets + (if v.isNat then 0 else 1)
  }

  ghost predicate AllBalanced(ct: CtTable) {
    forall k | k in ct :: Balanced(ct[k])
  }

  lemma PacketBalanced(lim: Limits, pol: Policy, s: State, f: Frame, now: u64)
    requires AllBalanced(s.ct)
    ensures AllBalanced(Packet(lim, pol, s, f, now).0.ct)
  {
    var p := PathOf(lim, pol, s, f, now);
    PacketEffect(lim, pol, s, f, now);
    if p.CtForward? || p.CtReverse? {
      HitWrites(lim, pol, s, f, now);
    } else if p.Accepted? {
      AcceptedWrites(lim, pol, s, f, now);
    } else if p.AlgHit? {
      ExpectedWrites(lim, pol, s, f, now);
    } else if p.DnatHit? {
      ForwardedWrites(lim, pol, s, f, now);
    }
  }

  /** On every run the traffic of every entry adds up. */
  lemma {:induction false} TrafficBalances(lim: Limits, s: State, es: seq<Event>)
    requires Fresh(s)
    ensures AllBalanced(After(lim, s, es).ct)
  {
    if es != [] {
      var front, e := es[..|es| - 1], es[|es| - 1];
      TrafficBalances(lim, s, front);
      if e.PacketIn? { PacketBalanced(lim, e.pol, After(lim, s, front), e.f, e.now); }
    }
  }
}
