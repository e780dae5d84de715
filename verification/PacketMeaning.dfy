/** What decides a packet, said from the fields of its header and the tables alone: for every path, exactly
    the packets that take it. Numbers are those of the protocols. */
module PacketMeaning {
  import opened Types
  import opened Conntrack
  import opened Pipeline
  import TokenBucket
  import HotSync
  import Suricata
  import Zones

  // ---------------------------------------------------------------- keys

  function V4Bytes(a: u32): Addr {
    [a / 0x100_0000, a / 0x1_0000 % 0x100, a / 0x100 % 0x100, a % 0x100, 0, 0, 0, 0, 0, 0, 0, 0, 0, 0, 0, 0]
  }

  function SourceOf(h: Header): IpKey {
    if h.isV4 then IpKey(4, V4Bytes(h.srcIp)) else IpKey(6, h.srcIp6)
  }

  function DestinationOf(h: Header): IpKey {
    if h.isV4 then IpKey(4, V4Bytes(h.dstIp)) else IpKey(6, h.dstIp6)
  }

  function FlowOf(h: Header): FiveTuple {
    FiveTuple(SourceOf(h).family, h.proto, SourceOf(h).ip, DestinationOf(h).ip, h.srcPort, h.dstPort)
  }

  /** The flow of the packets that answer. */
  function AnswerTo(h: Header): FiveTuple {
    FiveTuple(SourceOf(h).family, h.proto, DestinationOf(h).ip, SourceOf(h).ip, h.dstPort, h.srcPort)
  }

  function FragmentsOf(h: Header): FragKey {
    FragKey(SourceOf(h).family, h.proto, SourceOf(h).ip, DestinationOf(h).ip)
  }

  lemma KeysMeanFields(h: Header)
    ensures h.SrcKey() == SourceOf(h) && h.DstKey() == DestinationOf(h)
    ensures h.FlowKey() == FlowOf(h) && h.FlowKey().Reverse() == AnswerTo(h)
    ensures h.FragmentKey() == FragmentsOf(h)
    ensures FlowOf(h).Source() == SourceOf(h) && AnswerTo(h).Source() == DestinationOf(h)
  {
    V4Address(h.srcIp);
    V4Address(h.dstIp);
  }

  lemma V4Address(a: u32)
    ensures AddrV4(a) == V4Bytes(a)
  {
  }

  // ---------------------------------------------------------------- up to the limiters

  predicate OnVif(pol: Policy, f: Frame) {
    (f.ifindex, f.vlan) in pol.vifs
  }

  predicate IsBlocked(pol: Policy, h: Header) {
    SourceOf(h) in pol.blocked
  }

  /** The fragment stage lets the packet go on: it is whole, or a first fragment put to inspection (policy 2). */
  predicate GoesOn(pol: Policy, h: Header) {
    !h.fragmented || (pol.fragPolicy == 2 && h.firstFragment)
  }

  predicate RecentlySeen(pol: Policy, frag: FragTable, h: Header, now: u64) {
    FragmentsOf(h) in frag && now <= frag[FragmentsOf(h)] + pol.fragTimeout * 1_000_000_000
  }

  /** ICMPv6 on a LAN interface with the filter on. */
  predicate NdGuarded(pol: Policy, f: Frame, h: Header)
    requires OnVif(pol, f)
  {
    !h.isV4 && h.proto == 58 && pol.vifs[(f.ifindex, f.vlan)].role == 1 && pol.raFilter
  }

  /** Router advertisement and redirect. */
  predicate NdForbidden(h: Header) {
    h.icmp6Type == Some(134) || h.icmp6Type == Some(137)
  }

  predicate NdClear(pol: Policy, f: Frame, h: Header)
    requires OnVif(pol, f)
  {
    NdGuarded(pol, f, h) ==> h.icmp6Type.Some? && !NdForbidden(h)
  }

  predicate Listed(pol: Policy, h: Header) {
    FlowOf(h) in pol.allowed || AnswerTo(h) in pol.allowed
  }

  predicate ForThisHost(pol: Policy, h: Header) {
    DestinationOf(h) in pol.localIps
  }

  /** Nothing before the limiters decides the packet. */
  predicate ReachesLimiters(pol: Policy, f: Frame) {
    && OnVif(pol, f) && f.l3.Ip?
    && !IsBlocked(pol, f.l3.h) && GoesOn(pol, f.l3.h) && NdClear(pol, f, f.l3.h)
    && !Listed(pol, f.l3.h) && !ForThisHost(pol, f.l3.h)
  }

  function PathOf(lim: Limits, pol: Policy, s: State, f: Frame, now: u64): Path {
    Packet(lim, pol, s, f, now).1.path
  }

  lemma EarlyIffNotReached(pol: Policy, frag: FragTable, f: Frame, now: u64)
    ensures EarlyPath(pol, frag, f, now).None? <==> ReachesLimiters(pol, f)
  {
    if f.l3.Ip? { KeysMeanFields(f.l3.h); }
  }

  /** Frames that are not readable IP on a known interface. */
  lemma UnreadFrames(lim: Limits, pol: Policy, s: State, f: Frame, now: u64)
    ensures var p := PathOf(lim, pol, s, f, now);
            && (p.NoVif? <==> !OnVif(pol, f))
            && (p.NotIp? <==> OnVif(pol, f) && f.l3.NonIp?)
            && (OnVif(pol, f) && f.l3.BadIp? ==> p.Malformed?)
  {
    EarlyIffNotReached(pol, s.frag, f, now);
    if ReachesLimiters(pol, f) { NotEarly(lim, pol, s, f, now); }
  }

  /** The block list: exactly the packets whose source is in it are dropped by it. */
  lemma BlockedIff(lim: Limits, pol: Policy, s: State, f: Frame, now: u64)
    requires OnVif(pol, f) && f.l3.Ip?
    ensures PathOf(lim, pol, s, f, now).Blocked? <==> IsBlocked(pol, f.l3.h)
    ensures IsBlocked(pol, f.l3.h) ==>
              var (s', v) := Packet(lim, pol, s, f, now); s' == s.(stats := s'.stats) && !v.path.Passes()
  {
    KeysMeanFields(f.l3.h);
    EarlyIffNotReached(pol, s.frag, f, now);
    if ReachesLimiters(pol, f) { NotEarly(lim, pol, s, f, now); }
  }

  /** Fragments that are not blocked: dropped under policy 1, under policy 2 a later one by whether its flow
      was seen within the timeout, otherwise passed. */
  lemma FragmentsIff(lim: Limits, pol: Policy, s: State, f: Frame, now: u64)
    requires OnVif(pol, f) && f.l3.Ip?
    ensures var p, h := PathOf(lim, pol, s, f, now), f.l3.h;
            var here := !IsBlocked(pol, h) && h.fragmented;
            var later := here && pol.fragPolicy == 2 && !h.firstFragment;
            && (p.FragDropped? <==> here && pol.fragPolicy == 1)
            && (p.FragKnown? <==> later && RecentlySeen(pol, s.frag, h, now))
            && (p.FragOrphan? <==> later && !RecentlySeen(pol, s.frag, h, now))
            && (p.FragBypass? <==> here && pol.fragPolicy != 1 && pol.fragPolicy != 2)
  {
    KeysMeanFields(f.l3.h);
    EarlyIffNotReached(pol, s.frag, f, now);
    if ReachesLimiters(pol, f) { NotEarly(lim, pol, s, f, now); }
  }

  /** The neighbour discovery filter, the allow list either way round, and local destinations, in that order. */
  lemma ShortcutsIff(lim: Limits, pol: Policy, s: State, f: Frame, now: u64)
    requires OnVif(pol, f) && f.l3.Ip?
    ensures var p, h := PathOf(lim, pol, s, f, now), f.l3.h;
            var here := !IsBlocked(pol, h) && GoesOn(pol, h);
            && (p.Malformed? <==> here && NdGuarded(pol, f, h) && h.icmp6Type.None?)
            && (p.NdFiltered? <==> here && NdGuarded(pol, f, h) && NdForbidden(h))
            && (p.Allowed? <==> here && NdClear(pol, f, h) && Listed(pol, h))
            && (p.LocalDestination? <==> here && NdClear(pol, f, h) && !Listed(pol, h) && ForThisHost(pol, h))
  {
    KeysMeanFields(f.l3.h);
    EarlyIffNotReached(pol, s.frag, f, now);
    if ReachesLimiters(pol, f) { NotEarly(lim, pol, s, f, now); }
  }

  /** The paths decided before the limiters. */
  predicate IsEarly(p: Path) {
    || p.NoVif? || p.NotIp? || p.Malformed? || p.Blocked?
    || p.FragDropped? || p.FragKnown? || p.FragOrphan? || p.FragBypass?
    || p.NdFiltered? || p.Allowed? || p.LocalDestination?
  }

  lemma AdmitNotEarly(lim: Limits, pol: Policy, s: Aux, f: Frame, h: Header, mark: Option<byte>, now: u64)
    ensures !IsEarly(Admit(lim, pol, s, f, h, mark, now).verdict.path)
  {
  }

  lemma NotEarly(lim: Limits, pol: Policy, s: State, f: Frame, now: u64)
    requires ReachesLimiters(pol, f)
    ensures !IsEarly(PathOf(lim, pol, s, f, now))
  {
    EarlyIffNotReached(pol, s.frag, f, now);
    var h := f.l3.h;
    var s1 := s.aux.(rate := RateCheck(s.aux.rate, h.SrcKey(), now).0);
    var s2 := s1.(qos := QosCheck(lim, s1.qos, f, h, now).0);
    TrackNotEarly(lim, pol, s2, LookUpFrame(lim.timeouts, s.ct, f, now), f, h, QosMark(lim, f, h), now);
  }

  lemma TrackNotEarly(
    lim: Limits, pol: Policy, s: Aux, found: Lookup, f: Frame, h: Header, mark: Option<byte>, now: u64)
    ensures !IsEarly(Track(lim, pol, s, found, f, h, mark, now).verdict.path)
  {
    AdmitNotEarly(lim, pol, s, f, h, mark, now);
    AdmitNotEarly(lim, pol, s.(alg := AlgCheck(s.alg, h, now).0), f, h, mark, now);
  }

  /** A packet decided early leaves the limiters, the connections and the counters alone, is not marked, and
      makes its flow known only if it is a fragment let through by the allow list or as local. */
  lemma EarlyLeavesState(lim: Limits, pol: Policy, s: State, f: Frame, now: u64)
    requires !ReachesLimiters(pol, f)
    ensures var (s', v) := Packet(lim, pol, s, f, now);
            && s'.ct == s.ct && s'.aux == s.aux && v.mark == None
            && (s'.frag == if (v.path.Allowed? || v.path.LocalDestination?) && f.l3.h.fragmented
                           then s.frag[FragmentsOf(f.l3.h) := now] else s.frag)
  {
    EarlyIffNotReached(pol, s.frag, f, now);
    if f.l3.Ip? { KeysMeanFields(f.l3.h); }
  }

  /** The action of each path. */
  lemma DroppedPaths(p: Path)
    ensures !p.Passes() <==>
            || p.Malformed? || p.Blocked? || p.FragDropped? || p.FragOrphan? || p.NdFiltered?
            || p.RateLimited? || p.QosLimited? || p.PrefilterMiss? || p.ZoneDropped? || p.DefaultDropped?
            || p.SynFlooded? || p.ConnLimited?
  {
  }

  // ---------------------------------------------------------------- limiters

  /** A bucket's tokens at `now`: what it held and what the time since earned, up to its capacity. */
  function TokensAt(b: TokenBucket.Bucket, now: u64, rate: u32, cap: u32): u32 {
    TokenBucket.Refill(b, now, rate, cap).tokens
  }

  /** A source with a limit and no token left. */
  predicate OverRate(s: State, h: Header, now: u64) {
    && SourceOf(h) in s.aux.rate
    && var r := s.aux.rate[SourceOf(h)];
    TokensAt(r.bucket, now, r.rate, Max(r.burst, 1)) == 0
  }

  /** Every field a QoS class names is the packet's. */
  predicate InClass(c: QosConfig, f: Frame, h: Header) {
    && c.ifindex in {0, f.ifindex} && c.proto in {0, h.proto}
    && c.srcPort in {0, h.srcPort} && c.dstPort in {0, h.dstPort}
  }

  /** The class at `i` is the first in use, of the first 32, that the packet is in. */
  predicate FirstClass(lim: Limits, f: Frame, h: Header, i: nat) {
    var cs := lim.qosTable.slots;
    && i < 32 && i < lim.qosTable.count && i < |cs| && InClass(cs[i], f, h)
    && forall j | 0 <= j < i :: !InClass(cs[j], f, h)
  }

  lemma {:induction false} ClassFromIff(cs: seq<QosConfig>, i: nat, f: Frame, h: Header)
    requires i <= |cs| && forall j | 0 <= j < i :: !InClass(cs[j], f, h)
    ensures var r := ClassFrom(cs, i, f.ifindex, h);
            && (r.Some? ==> InClass(cs[r.value], f, h) && forall j | 0 <= j < r.value :: !InClass(cs[j], f, h))
            && (r.None? ==> forall j | 0 <= j < |cs| :: !InClass(cs[j], f, h))
    decreases |cs| - i
  {
    if i < |cs| && !ClassMatches(cs[i], f.ifindex, h) { ClassFromIff(cs, i + 1, f, h); }
  }

  /** The class found is the first that the packet is in, and its DSCP value is the packet's mark. */
  lemma ClassIff(lim: Limits, f: Frame, h: Header, i: nat)
    ensures QosClass(lim, f, h) == Some(i) <==> FirstClass(lim, f, h, i)
    ensures FirstClass(lim, f, h, i) ==> QosMark(lim, f, h) == Some(lim.qosTable.slots[i].dscp)
    ensures (forall j: nat :: !FirstClass(lim, f, h, j)) ==> QosMark(lim, f, h) == None
  {
    var cs := Classes(lim);
    ClassFromIff(cs, 0, f, h);
    var found := QosClass(lim, f, h);
    if found.Some? { assert FirstClass(lim, f, h, found.value); }
    if FirstClass(lim, f, h, i) {
      assert i < |cs| && cs[i] == lim.qosTable.slots[i];
      assert found.Some? ==> cs[found.value] == lim.qosTable.slots[found.value];
    }
  }

  /** The packet is too long for what its class has left. */
  predicate OverClass(lim: Limits, s: State, f: Frame, h: Header, now: u64, i: nat) {
    && FirstClass(lim, f, h, i) && i < |s.aux.qos|
    && var c := lim.qosTable.slots[i];
    c.rateBps != 0 && TokensAt(s.aux.qos[i], now, c.rateBps, c.burstBytes) < f.len
  }

  ghost predicate OverAnyClass(lim: Limits, s: State, f: Frame, h: Header, now: u64) {
    exists i: nat :: OverClass(lim, s, f, h, now, i)
  }

  lemma RateCheckIff(s: State, h: Header, now: u64)
    ensures RateCheck(s.aux.rate, h.SrcKey(), now).1 <==> !OverRate(s, h, now)
  {
    KeysMeanFields(h);
  }

  lemma QosCheckIff(lim: Limits, s: State, f: Frame, h: Header, now: u64)
    ensures QosCheck(lim, s.aux.qos, f, h, now).1 <==> !OverAnyClass(lim, s, f, h, now)
  {
    var found := QosClass(lim, f, h);
    if found.Some? {
      ClassIff(lim, f, h, found.value);
      if !QosCheck(lim, s.aux.qos, f, h, now).1 { assert OverClass(lim, s, f, h, now, found.value); }
    }
    if i: nat :| OverClass(lim, s, f, h, now, i) { ClassIff(lim, f, h, i); }
  }

  /** A packet that reaches the limiters is stopped by the first exactly when its source is over its rate,
      and by the second exactly when it is not and its class has too few bytes left. It bears the mark of its
      class unless the first stopped it. */
  lemma LimitersIff(lim: Limits, pol: Policy, s: State, f: Frame, now: u64)
    requires ReachesLimiters(pol, f)
    ensures var p, h := PathOf(lim, pol, s, f, now), f.l3.h;
            && (p.RateLimited? <==> OverRate(s, h, now))
            && (p.QosLimited? <==> !OverRate(s, h, now) && OverAnyClass(lim, s, f, h, now))
    ensures Packet(lim, pol, s, f, now).1.mark
            == if OverRate(s, f.l3.h, now) then None else QosMark(lim, f, f.l3.h)
  {
    var h := f.l3.h;
    EarlyIffNotReached(pol, s.frag, f, now);
    RateCheckIff(s, h, now);
    QosCheckIff(lim, s, f, h, now);
    var s1 := s.aux.(rate := RateCheck(s.aux.rate, h.SrcKey(), now).0);
    var s2 := s1.(qos := QosCheck(lim, s1.qos, f, h, now).0);
    TrackMarks(lim, pol, s2, LookUpFrame(lim.timeouts, s.ct, f, now), f, h, QosMark(lim, f, h), now);
  }

  lemma TrackMarks(
    lim: Limits, pol: Policy, s: Aux, found: Lookup, f: Frame, h: Header, mark: Option<byte>, now: u64)
    ensures var v := Track(lim, pol, s, found, f, h, mark, now).verdict;
            v.mark == mark && !v.path.RateLimited? && !v.path.QosLimited?
  {
  }

  // ---------------------------------------------------------------- connections

  /** Neither limiter stops the packet. */
  ghost predicate Unlimited(lim: Limits, pol: Policy, s: State, f: Frame, now: u64) {
    ReachesLimiters(pol, f) && !OverRate(s, f.l3.h, now) && !OverAnyClass(lim, s, f, f.l3.h, now)
  }

  /** What the stages after the limiters start from. */
  function LimitedAux(lim: Limits, s: Aux, f: Frame, h: Header, now: u64): Aux {
    var s1 := s.(rate := RateCheck(s.rate, h.SrcKey(), now).0);
    s1.(qos := QosCheck(lim, s1.qos, f, h, now).0)
  }

  lemma UnlimitedTracks(lim: Limits, pol: Policy, s: State, f: Frame, now: u64)
    requires Unlimited(lim, pol, s, f, now)
    ensures var h := f.l3.h;
            PathOf(lim, pol, s, f, now)
            == Track(lim, pol, LimitedAux(lim, s.aux, f, h, now), LookUp(lim.timeouts, s.ct, h.FlowKey(), now),
                     f, h, QosMark(lim, f, h), now).verdict.path
  {
    EarlyIffNotReached(pol, s.frag, f, now);
    RateCheckIff(s, f.l3.h, now);
    QosCheckIff(lim, s, f, f.l3.h, now);
  }

  /** A forwarding rule for the packet's destination, port and protocol. */
  predicate Forwarded(pol: Policy, h: Header) {
    h.isV4 && DnatKey(h.dstIp, h.dstPort, h.proto) in pol.dnat
  }

  predicate Awaits(s: State, k: FiveTuple, now: u64) {
    k in s.aux.alg && (s.aux.alg[k] == 0 || now <= s.aux.alg[k])
  }

  /** An FTP data connection that is expected, from this port or from any. */
  predicate Expected(pol: Policy, s: State, h: Header, now: u64) {
    && pol.ftpAlg && h.proto == 6 && h.isV4
    && (Awaits(s, FlowOf(h), now) || Awaits(s, FlowOf(h).(srcPort := 0), now))
  }

  /** The packet belongs to no live connection, forwarding rule or expectation. */
  predicate IsNew(lim: Limits, pol: Policy, s: State, h: Header, now: u64) {
    && !Live(lim.timeouts, s.ct, FlowOf(h), now) && !Live(lim.timeouts, s.ct, AnswerTo(h), now)
    && !Forwarded(pol, h) && !Expected(pol, s, h, now)
  }

  lemma ExpectedIff(pol: Policy, s: State, h: Header, now: u64)
    ensures AlgApplies(pol, h) && AlgCheck(s.aux.alg, h, now).1 <==> Expected(pol, s, h, now)
  {
    KeysMeanFields(h);
    if h.isV4 { assert FiveTupleV4(h.srcIp, h.dstIp, h.proto, 0, h.dstPort) == FlowOf(h).(srcPort := 0); }
  }

  lemma NewFlowPaths(lim: Limits, pol: Policy, s: State, s2: Aux, f: Frame, h: Header, mark: Option<byte>, now: u64)
    requires s2.alg == s.aux.alg
    ensures var p := NewFlow(lim, pol, s2, f, h, mark, now).verdict.path;
            && !p.CtForward? && !p.CtReverse?
            && (p.DnatHit? <==> Forwarded(pol, h))
            && (p.AlgHit? <==> !Forwarded(pol, h) && Expected(pol, s, h, now))
  {
    ExpectedIff(pol, s, h, now);
    AdmitNotTracked(lim, pol, s2, f, h, mark, now);
    AdmitNotTracked(lim, pol, s2.(alg := AlgCheck(s2.alg, h, now).0), f, h, mark, now);
  }

  lemma AdmitNotTracked(lim: Limits, pol: Policy, s: Aux, f: Frame, h: Header, mark: Option<byte>, now: u64)
    ensures var p := Admit(lim, pol, s, f, h, mark, now).verdict.path;
            !p.CtForward? && !p.CtReverse? && !p.DnatHit? && !p.AlgHit?
  {
  }

  /** Connection tracking and its two shortcuts for new flows, in that order. */
  lemma TrackingIff(lim: Limits, pol: Policy, s: State, f: Frame, now: u64)
    requires Unlimited(lim, pol, s, f, now)
    ensures var p, h := PathOf(lim, pol, s, f, now), f.l3.h;
            var direct, answer := Live(lim.timeouts, s.ct, FlowOf(h), now), Live(lim.timeouts, s.ct, AnswerTo(h), now);
            && (p.CtForward? <==> direct)
            && (p.CtReverse? <==> !direct && answer)
            && (p.DnatHit? <==> !direct && !answer && Forwarded(pol, h))
            && (p.AlgHit? <==> !direct && !answer && !Forwarded(pol, h) && Expected(pol, s, h, now))
  {
    KeysMeanFields(f.l3.h);
    UnlimitedTracks(lim, pol, s, f, now);
    NewFlowPaths(lim, pol, s, LimitedAux(lim, s.aux, f, f.l3.h, now), f, f.l3.h, QosMark(lim, f, f.l3.h), now);
  }

  // ---------------------------------------------------------------- new flows

  predicate MissesPrefilter(pol: Policy, h: Header) {
    h.isV4 && pol.prefilter
    && !Suricata.PrefilterHit(pol.rules, Suricata.Flow(h.proto, h.srcIp, h.dstIp, h.srcPort, h.dstPort))
  }

  /** The zone entries' action for where the packet comes in and where it goes; IPv4 only. */
  function ZoneSays(pol: Policy, f: Frame, h: Header): Option<byte> {
    if h.isV4 then Zones.FirstMatch(HotSync.InUse(pol.zones, 64), f.ifindex, Zones.WordOf(h.dstIp)) else None
  }

  /** Prefilter, zones and the default action all let the flow on. */
  predicate Ungated(pol: Policy, f: Frame, h: Header) {
    && !MissesPrefilter(pol, h) && ZoneSays(pol, f, h) != Some(0) && ZoneSays(pol, f, h) != Some(1)
    && pol.defaultAction != 0
  }

  /** A TCP SYN whose source is out of SYN tokens or has as many half-open connections as it may. */
  predicate Floods(lim: Limits, s: State, h: Header, now: u64) {
    && h.proto == 6 && h.tcp.syn
    && (|| (&& lim.synRate != 0 && SourceOf(h) in s.aux.syn
            && TokensAt(s.aux.syn[SourceOf(h)], now, lim.synRate, Max(lim.synBurst, 1)) == 0)
        || (lim.synMaxHalfOpen != 0 && CountOf(s.aux.counts.syn, SourceOf(h)) >= lim.synMaxHalfOpen))
  }

  /** The source has as many connections as it may. */
  predicate AtLimit(lim: Limits, s: State, h: Header) {
    && SourceOf(h) in lim.connLimits && lim.connLimits[SourceOf(h)] != 0
    && CountOf(s.aux.counts.conn, SourceOf(h)) >= lim.connLimits[SourceOf(h)]
  }

  lemma GateIff(pol: Policy, f: Frame, h: Header)
    ensures var g, zone := Gate(pol, f, h), ZoneSays(pol, f, h);
            && (g == Some(PrefilterMiss) <==> MissesPrefilter(pol, h))
            && (g == Some(ZoneDropped) <==> !MissesPrefilter(pol, h) && zone == Some(0))
            && (g == Some(ZonePassed) <==> !MissesPrefilter(pol, h) && zone == Some(1))
            && (g == Some(DefaultDropped) <==>
                !MissesPrefilter(pol, h) && zone != Some(0) && zone != Some(1) && pol.defaultAction == 0)
            && (g == None <==> Ungated(pol, f, h))
  {
  }

  lemma AdmitNewIff(lim: Limits, s: State, s2: Aux, f: Frame, h: Header, mark: Option<byte>, now: u64)
    requires s2.syn == s.aux.syn && s2.counts == s.aux.counts
    ensures var p := AdmitNew(lim, s2, f, h, mark, now).verdict.path;
            && (p.SynFlooded? <==> Floods(lim, s, h, now))
            && (p.ConnLimited? <==> !Floods(lim, s, h, now) && AtLimit(lim, s, h))
            && (p.Accepted? <==> !Floods(lim, s, h, now) && !AtLimit(lim, s, h))
  {
    KeysMeanFields(h);
  }

  /** New flows: prefilter, zones, default action, SYN flood protection, connection limit, in that order. */
  lemma NewFlowIff(lim: Limits, pol: Policy, s: State, f: Frame, now: u64)
    requires Unlimited(lim, pol, s, f, now) && IsNew(lim, pol, s, f.l3.h, now)
    ensures var p, h := PathOf(lim, pol, s, f, now), f.l3.h;
            var missed, zone, open := MissesPrefilter(pol, h), ZoneSays(pol, f, h), Ungated(pol, f, h);
            && (p.PrefilterMiss? <==> missed)
            && (p.ZoneDropped? <==> !missed && zone == Some(0))
            && (p.ZonePassed? <==> !missed && zone == Some(1))
            && (p.DefaultDropped? <==> !missed && zone != Some(0) && zone != Some(1) && pol.defaultAction == 0)
            && (p.SynFlooded? <==> open && Floods(lim, s, h, now))
            && (p.ConnLimited? <==> open && !Floods(lim, s, h, now) && AtLimit(lim, s, h))
            && (p.Accepted? <==> open && !Floods(lim, s, h, now) && !AtLimit(lim, s, h))
  {
    var h := f.l3.h;
    KeysMeanFields(h);
    UnlimitedTracks(lim, pol, s, f, now);
    ExpectedIff(pol, s, h, now);
    GateIff(pol, f, h);
    var s2 := LimitedAux(lim, s.aux, f, h, now);
    AdmitNewIff(lim, s, s2, f, h, QosMark(lim, f, h), now);
    AdmitNewIff(lim, s, s2.(alg := AlgCheck(s2.alg, h, now).0), f, h, QosMark(lim, f, h), now);
  }
}
