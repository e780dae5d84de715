/** What one packet, one TC-egress packet and one daemon pass do to the shared maps, as functions
    on a snapshot of those maps. `DataPlane` performs the same steps on the maps in place. */
module Pipeline {
  import opened Types
  import opened Conntrack
  import opened TokenBucket
  import HotSync
  import Suricata
  import Zones

  // ---------------------------------------------------------------- packets

  /** The fields the data plane reads from an IP packet. `srcIp` and `dstIp` are meaningful for
      IPv4 and the 16-byte addresses for IPv6. */
  datatype Header = Header(
    isV4: bool, srcIp: u32, dstIp: u32, srcIp6: Addr, dstIp6: Addr,
    proto: byte, srcPort: u16, dstPort: u16,
    fragmented: bool, firstFragment: bool, tcp: TcpFlags, icmp6Type: Option<byte>)
  {
    function FlowKey(): FiveTuple {
      if isV4 then FiveTupleV4(srcIp, dstIp, proto, srcPort, dstPort)
      else FiveTupleV6(srcIp6, dstIp6, proto, srcPort, dstPort)
    }

    function SrcKey(): IpKey {
      if isV4 then IpKeyV4(srcIp) else IpKeyV6(srcIp6)
    }

    function DstKey(): IpKey {
      if isV4 then IpKeyV4(dstIp) else IpKeyV6(dstIp6)
    }

    function FragmentKey(): FragKey {
      var k := FlowKey();
      FragKey(k.family, k.proto, k.srcIp, k.dstIp)
    }

    function Ipv4Flow(): Suricata.Flow {
      Suricata.Flow(proto, srcIp, dstIp, srcPort, dstPort)
    }
  }

  /** `BadIp`: the IP header or the ports could not be read. */
  datatype Layer3 = NonIp | BadIp | Ip(h: Header)

  datatype Frame = Frame(ifindex: u32, vlan: u16, len: u32, l3: Layer3)

  // ---------------------------------------------------------------- configuration

  datatype VifConfig = VifConfig(mode: byte, role: byte)

  datatype DnatKey = DnatKey(dstIp: u32, dstPort: u16, proto: byte)

  datatype DnatValue = DnatValue(toIp: u32, toPort: u16)

  datatype QosConfig = QosConfig(
    ifindex: u32, proto: byte, srcPort: u16, dstPort: u16, dscp: byte, rateBps: u32, burstBytes: u32)

  const QOS_MAX: u32 := 32

  /** Configuration the daemon may rewrite between any two packets of a run. */
  datatype Policy = Policy(
    vifs: map<(u32, u16), VifConfig>, blocked: set<IpKey>, localIps: set<IpKey>, allowed: set<FiveTuple>,
    fragPolicy: byte, fragTimeout: u32, raFilter: bool, ftpAlg: bool,
    dnat: map<DnatKey, DnatValue>, prefilter: bool, rules: Suricata.SuriTuples,
    zones: Zones.ZoneTable, defaultAction: byte)

  /** Numeric limits, fixed over a run. */
  datatype Limits = Limits(
    timeouts: Timeouts, connLimits: map<IpKey, u32>,
    synRate: u32, synBurst: u32, synMaxHalfOpen: u32, qosTable: HotSync.Slots<QosConfig>)

  // ---------------------------------------------------------------- shared maps

  datatype RateState = RateState(bucket: Bucket, rate: u32, burst: u32)

  datatype Stats = Stats(packets: u64, passed: u64, dropped: u64, blocked: u64)

  /** Connections, and half-open connections, counted per source. */
  datatype Counts = Counts(conn: map<IpKey, u32>, syn: map<IpKey, u32>)

  /** The maps the stages of the pipeline read and write as they go. */
  datatype Aux = Aux(
    counts: Counts, alg: map<FiveTuple, u64>,
    rate: map<IpKey, RateState>, syn: map<IpKey, Bucket>, qos: seq<Bucket>)

  type FragTable = map<FragKey, u64>

  datatype State = State(ct: CtTable, frag: FragTable, aux: Aux, stats: Stats)

  // ---------------------------------------------------------------- verdicts

  /** Where in the pipeline a packet was decided. */
  datatype Path =
    | NoVif | NotIp | Malformed | Blocked
    | FragDropped | FragKnown | FragOrphan | FragBypass
    | NdFiltered | Allowed | LocalDestination | RateLimited | QosLimited
    | CtForward | CtReverse | DnatHit | AlgHit
    | PrefilterMiss | ZoneDropped | ZonePassed | DefaultDropped | SynFlooded | ConnLimited | Accepted
  {
    /** XDP_PASS rather than XDP_DROP. */
    predicate Passes() {
      match this
      case NoVif | NotIp | FragKnown | FragBypass | Allowed | LocalDestination
        | CtForward | CtReverse | DnatHit | AlgHit | ZonePassed | Accepted => true
      case _ => false
    }

    /** Decided at or after SYN flood protection. */
    predicate ReachesSynCheck() {
      SynFlooded? || ConnLimited? || Accepted?
    }

    /** Past the fragment stage and passed: a fragment that got this far makes its flow known. */
    predicate RecordsFragment() {
      match this
      case Allowed | LocalDestination | CtForward | CtReverse | DnatHit | AlgHit | ZonePassed | Accepted => true
      case _ => false
    }
  }

  /** The decision, and the DSCP value QoS writes into the packet, if any. */
  datatype Verdict = Verdict(path: Path, mark: Option<byte>)

  /** A 64-bit counter, which wraps, goes up by one or stays. */
  function Tick(x: u64, counted: bool): u64 {
    if counted then (x + 1) % TWO_64 else x
  }

  function Bump(s: Stats, p: Path): Stats {
    if p.Malformed? then s
    else Stats(Tick(s.packets, true), Tick(s.passed, p.Passes()), Tick(s.dropped, !p.Passes()),
               Tick(s.blocked, p.Blocked?))
  }

  /** An insertion into the connection table. */
  datatype CtWrite = CtWrite(key: FiveTuple, value: CtValue)

  /** What the stages come to: their maps, the verdict, and at most one table insertion. */
  datatype Outcome = Outcome(aux: Aux, verdict: Verdict, write: Option<CtWrite>)

  function Finish(s: Aux, p: Path, mark: Option<byte>, write: Option<CtWrite>): Outcome {
    Outcome(s, Verdict(p, mark), write)
  }

  /** What the two table lookups find for a packet: live entries only, forward first. */
  datatype Lookup = Forward(entry: CtValue) | Backward(entry: CtValue) | Unknown

  function LookUp(timeouts: Timeouts, ct: CtTable, flow: FiveTuple, now: u64): Lookup {
    if Live(timeouts, ct, flow, now) then Forward(ct[flow])
    else if Live(timeouts, ct, flow.Reverse(), now) then Backward(ct[flow.Reverse()])
    else Unknown
  }

  // ---------------------------------------------------------------- stages

  function TrackFragment(frag: FragTable, f: Frame, p: Path, now: u64): FragTable {
    if p.RecordsFragment() && f.l3.Ip? && f.l3.h.fragmented then frag[f.l3.h.FragmentKey() := now] else frag
  }

  predicate FragmentKnown(pol: Policy, frag: FragTable, k: FragKey, now: u64) {
    k in frag && (now <= frag[k] || now - frag[k] <= pol.fragTimeout * NANOS_PER_SEC)
  }

  function FragmentPath(pol: Policy, frag: FragTable, h: Header, now: u64): Option<Path> {
    if !h.fragmented then None
    else if pol.fragPolicy == FRAG_POLICY_DROP then Some(FragDropped)
    else if pol.fragPolicy == FRAG_POLICY_INSPECT then
      if h.firstFragment then None
      else if FragmentKnown(pol, frag, h.FragmentKey(), now) then Some(FragKnown)
      else Some(FragOrphan)
    else Some(FragBypass)
  }

  function RateCap(r: RateState): u32 {
    Max(r.burst, 1)
  }

  function RateCheck(rate: map<IpKey, RateState>, k: IpKey, now: u64): (map<IpKey, RateState>, bool) {
    if k !in rate then (rate, true)
    else
      var (b, ok) := Take(rate[k].bucket, now, rate[k].rate, RateCap(rate[k]), 1);
      (rate[k := rate[k].(bucket := b)], ok)
  }

  predicate ClassMatches(c: QosConfig, ifindex: u32, h: Header) {
    && (c.ifindex == 0 || c.ifindex == ifindex)
    && (c.proto == 0 || c.proto == h.proto)
    && (c.srcPort == 0 || c.srcPort == h.srcPort)
    && (c.dstPort == 0 || c.dstPort == h.dstPort)
  }

  /** The classes in use. */
  function Classes(lim: Limits): seq<QosConfig> {
    HotSync.InUse(lim.qosTable, QOS_MAX)
  }

  /** The first class from index `i` on that matches. */
  function ClassFrom(classes: seq<QosConfig>, i: nat, ifindex: u32, h: Header): (r: Option<nat>)
    ensures r.Some? ==> i <= r.value < |classes|
    decreases |classes| - i
  {
    if i >= |classes| then None
    else if ClassMatches(classes[i], ifindex, h) then Some(i)
    else ClassFrom(classes, i + 1, ifindex, h)
  }

  function QosClass(lim: Limits, f: Frame, h: Header): (r: Option<nat>)
    ensures r.Some? ==> r.value < |Classes(lim)|
  {
    ClassFrom(Classes(lim), 0, f.ifindex, h)
  }

  /** The class's byte bucket lets the packet through. */
  function QosCheck(lim: Limits, qos: seq<Bucket>, f: Frame, h: Header, now: u64): (seq<Bucket>, bool) {
    match QosClass(lim, f, h)
    case None => (qos, true)
    case Some(i) =>
      var c := Classes(lim)[i];
      if c.rateBps == 0 || i >= |qos| then (qos, true)
      else
        var (b, ok) := Take(qos[i], now, c.rateBps, c.burstBytes, f.len);
        (qos[i := b], ok)
  }

  function QosMark(lim: Limits, f: Frame, h: Header): Option<byte> {
    var i := QosClass(lim, f, h);
    if i.Some? then Some(Classes(lim)[i.value].dscp) else None
  }

  function Decrement(count: map<IpKey, u32>, k: IpKey): map<IpKey, u32> {
    if k in count && count[k] > 0 then count[k := count[k] - 1] else count
  }

  function Increment(count: map<IpKey, u32>, k: IpKey): map<IpKey, u32> {
    count[k := if k in count then (count[k] + 1) % TWO_32 else 1]
  }

  function CountOf(count: map<IpKey, u32>, k: IpKey): u32 {
    if k in count then count[k] else 0
  }

  /** The entry loses its half-open mark. */
  predicate LeavesHalfOpen(v: CtValue, to: CtState) {
    !v.isNat && v.state.HalfOpen() && !to.HalfOpen() && v.countedSyn
  }

  /** The entry loses its connection mark. */
  predicate Closes(v: CtValue, to: CtState) {
    !v.isNat && to != v.state && to.TimeWait? && v.countedConn
  }

  /** State, time and traffic of an entry after one more packet in the direction of its key, or against it. */
  function Touched(v: CtValue, to: CtState, reply: bool, len: u32, now: u64): CtValue {
    var w := v.(state := to, lastSeen := now, packets := SaturatingAdd32(v.packets, 1));
    if reply then w.(pktsRepl := SaturatingAdd32(v.pktsRepl, 1), bytesRepl := SaturatingAdd64(v.bytesRepl, len))
    else w.(pktsOrig := SaturatingAdd32(v.pktsOrig, 1), bytesOrig := SaturatingAdd64(v.bytesOrig, len))
  }

  /** The marks an entry keeps on its way from `v` to `to`. */
  function Unmarked(w: CtValue, v: CtValue, to: CtState): CtValue {
    w.(countedSyn := w.countedSyn && !LeavesHalfOpen(v, to), countedConn := w.countedConn && !Closes(v, to))
  }

  function Refreshed(v: CtValue, to: CtState, reply: bool, fragmented: bool, len: u32, now: u64): CtValue {
    var w := Unmarked(Touched(v, to, reply, len, now), v, to);
    if fragmented then w.(hasFragments := true) else w
  }

  function GiveBack(c: Counts, src: IpKey, v: CtValue, to: CtState): Counts {
    Counts(if Closes(v, to) then Decrement(c.conn, src) else c.conn,
           if LeavesHalfOpen(v, to) then Decrement(c.syn, src) else c.syn)
  }

  /** A hit on the live entry `v` of key `k`: refresh it and give back what it no longer counts for. */
  function Hit(
    s: Aux, k: FiveTuple, v: CtValue, h: Header, reply: bool, len: u32, mark: Option<byte>, now: u64): Outcome
  {
    var to := NextState(h.proto, h.tcp, reply, v.state);
    var s1 := s.(counts := GiveBack(s.counts, k.Source(), v, to));
    Finish(s1, if reply then CtReverse else CtForward, mark,
           Some(CtWrite(k, Refreshed(v, to, reply, h.fragmented, len, now))))
  }

  /** The key under which replies to a port-forwarded packet will arrive. */
  function DnatReplyKey(h: Header, v: DnatValue): FiveTuple {
    FiveTupleV4(v.toIp, h.srcIp, h.proto, v.toPort, h.srcPort)
  }

  function DnatKeyOf(h: Header): DnatKey {
    DnatKey(h.dstIp, h.dstPort, h.proto)
  }

  predicate ExpectLive(alg: map<FiveTuple, u64>, k: FiveTuple, now: u64) {
    k in alg && (alg[k] == 0 || now <= alg[k])
  }

  function DropStale(alg: map<FiveTuple, u64>, k: FiveTuple, now: u64): map<FiveTuple, u64> {
    if k in alg && !ExpectLive(alg, k, now) then alg - {k} else alg
  }

  /** The FTP expectation of the flow, or the one with any source port. A hit uses both up. */
  function AlgCheck(alg: map<FiveTuple, u64>, h: Header, now: u64): (map<FiveTuple, u64>, bool) {
    var flow := h.FlowKey();
    var wild := FiveTupleV4(h.srcIp, h.dstIp, h.proto, 0, h.dstPort);
    if ExpectLive(alg, flow, now) || ExpectLive(alg, wild, now) then (alg - {flow, wild}, true)
    else (DropStale(DropStale(alg, flow, now), wild, now), false)
  }

  predicate AlgApplies(pol: Policy, h: Header) {
    pol.ftpAlg && h.proto == IPPROTO_TCP && h.isV4
  }

  function ZoneAction(pol: Policy, f: Frame, h: Header): Option<byte> {
    if h.isV4 then Zones.Decision(pol.zones, f.ifindex, Zones.WordOf(h.dstIp)) else None
  }

  function SynCap(lim: Limits): u32 {
    Max(lim.synBurst, 1)
  }

  /** The SYN token bucket of a source; a source seen for the first time gets a full bucket less one. */
  function SynTokens(lim: Limits, syn: map<IpKey, Bucket>, k: IpKey, now: u64): (map<IpKey, Bucket>, bool) {
    if lim.synRate == 0 then (syn, true)
    else if k in syn then
      var (b, ok) := Take(syn[k], now, lim.synRate, SynCap(lim), 1);
      (syn[k := b], ok)
    else (syn[k := Bucket(now, SynCap(lim) - 1)], true)
  }

  predicate HalfOpenFits(lim: Limits, synCount: map<IpKey, u32>, k: IpKey) {
    lim.synMaxHalfOpen == 0 || CountOf(synCount, k) < lim.synMaxHalfOpen
  }

  function MaxConns(lim: Limits, k: IpKey): u32 {
    if k in lim.connLimits then lim.connLimits[k] else 0
  }

  predicate ConnFits(lim: Limits, connCount: map<IpKey, u32>, k: IpKey) {
    MaxConns(lim, k) == 0 || CountOf(connCount, k) < MaxConns(lim, k)
  }

  predicate IsTcpSyn(h: Header) {
    h.proto == IPPROTO_TCP && h.tcp.syn
  }

  predicate CountsSyn(lim: Limits, h: Header) {
    IsTcpSyn(h) && lim.synMaxHalfOpen != 0
  }

  predicate CountsConn(lim: Limits, h: Header) {
    MaxConns(lim, h.SrcKey()) != 0
  }

  /** The entry of a newly accepted flow, marked for the counters it is counted in. */
  function NewEntry(lim: Limits, h: Header, len: u32, now: u64): CtValue {
    NewCtValue(InitialState(h.proto, h.tcp), now, len)
      .(hasFragments := h.fragmented, countedSyn := CountsSyn(lim, h), countedConn := CountsConn(lim, h))
  }

  function Counted(lim: Limits, c: Counts, h: Header): Counts {
    Counts(if CountsConn(lim, h) then Increment(c.conn, h.SrcKey()) else c.conn,
           if CountsSyn(lim, h) then Increment(c.syn, h.SrcKey()) else c.syn)
  }

  /** Prefilter, zone policies and the default action: `None` means they let a new flow on. */
  function Gate(pol: Policy, f: Frame, h: Header): Option<Path> {
    if h.isV4 && pol.prefilter && !Suricata.PrefilterHit(pol.rules, h.Ipv4Flow()) then Some(PrefilterMiss)
    else if ZoneAction(pol, f, h) == Some(ACTION_DROP) then Some(ZoneDropped)
    else if ZoneAction(pol, f, h) == Some(ACTION_PASS) then Some(ZonePassed)
    else if pol.defaultAction == ACTION_DROP then Some(DefaultDropped)
    else None
  }

  /** The SYN tokens a new flow takes, and whether it may. */
  function SynGate(lim: Limits, syn: map<IpKey, Bucket>, h: Header, now: u64): (map<IpKey, Bucket>, bool) {
    if IsTcpSyn(h) then SynTokens(lim, syn, h.SrcKey(), now) else (syn, true)
  }

  /** SYN flood protection and the connection limit, then the new entry. */
  function AdmitNew(lim: Limits, s: Aux, f: Frame, h: Header, mark: Option<byte>, now: u64): Outcome {
    var (syn', tokenOk) := SynGate(lim, s.syn, h, now);
    var s1 := s.(syn := syn');
    if !tokenOk || (IsTcpSyn(h) && !HalfOpenFits(lim, s.counts.syn, h.SrcKey())) then Finish(s1, SynFlooded, mark, None)
    else if !ConnFits(lim, s.counts.conn, h.SrcKey()) then Finish(s1, ConnLimited, mark, None)
    else
      Finish(s1.(counts := Counted(lim, s1.counts, h)), Accepted, mark,
             Some(CtWrite(h.FlowKey(), NewEntry(lim, h, f.len, now))))
  }

  /** What a flow unknown to the tables goes through. */
  function Admit(lim: Limits, pol: Policy, s: Aux, f: Frame, h: Header, mark: Option<byte>, now: u64): Outcome {
    match Gate(pol, f, h)
    case Some(p) => Finish(s, p, mark, None)
    case None => AdmitNew(lim, s, f, h, mark, now)
  }

  /** Port forwarding and FTP expectations, then admission. */
  function NewFlow(lim: Limits, pol: Policy, s: Aux, f: Frame, h: Header, mark: Option<byte>, now: u64): Outcome {
    if h.isV4 && DnatKeyOf(h) in pol.dnat then
      Finish(s, DnatHit, mark,
             Some(CtWrite(DnatReplyKey(h, pol.dnat[DnatKeyOf(h)]), NatReply(now))))
    else if AlgApplies(pol, h) then
      var (alg', hit) := AlgCheck(s.alg, h, now);
      var s1 := s.(alg := alg');
      if hit then
        Finish(s1, AlgHit, mark,
               Some(CtWrite(h.FlowKey(), NewCtValue(InitialState(h.proto, h.tcp), now, f.len))))
      else Admit(lim, pol, s1, f, h, mark, now)
    else Admit(lim, pol, s, f, h, mark, now)
  }

  /** Connection tracking, forward then reverse, then the new-flow path. */
  function Track(
    lim: Limits, pol: Policy, s: Aux, found: Lookup, f: Frame, h: Header, mark: Option<byte>, now: u64): Outcome
  {
    match found
    case Forward(v) => Hit(s, h.FlowKey(), v, h, false, f.len, mark, now)
    case Backward(v) => Hit(s, h.FlowKey().Reverse(), v, h, true, f.len, mark, now)
    case Unknown => NewFlow(lim, pol, s, f, h, mark, now)
  }

  /** The two rate stages every packet on the checked path goes through. */
  function Limit(lim: Limits, pol: Policy, s: Aux, found: Lookup, f: Frame, h: Header, now: u64): Outcome {
    var (rate', within) := RateCheck(s.rate, h.SrcKey(), now);
    var s1 := s.(rate := rate');
    if !within then Finish(s1, RateLimited, None, None)
    else
      var (qos', fits) := QosCheck(lim, s1.qos, f, h, now);
      var s2 := s1.(qos := qos');
      if !fits then Finish(s2, QosLimited, QosMark(lim, f, h), None)
      else Track(lim, pol, s2, found, f, h, QosMark(lim, f, h), now)
  }

  /** What is decided without touching the rate stages: `None` means the packet goes on to them. */
  function EarlyPath(pol: Policy, frag: FragTable, f: Frame, now: u64): (r: Option<Path>)
    ensures r.None? ==> f.l3.Ip?
  {
    if (f.ifindex, f.vlan) !in pol.vifs then Some(NoVif)
    else if f.l3.NonIp? then Some(NotIp)
    else if f.l3.BadIp? then Some(Malformed)
    else
      var h := f.l3.h;
      if h.SrcKey() in pol.blocked then Some(Blocked)
      else if FragmentPath(pol, frag, h, now).Some? then FragmentPath(pol, frag, h, now)
      else
        var filters := && !h.isV4 && h.proto == IPPROTO_ICMPV6
                       && pol.vifs[(f.ifindex, f.vlan)].role == ROLE_LAN && pol.raFilter;
        if filters && h.icmp6Type.None? then Some(Malformed)
        else if filters && h.icmp6Type.value in {ICMPV6_RA, ICMPV6_REDIRECT} then Some(NdFiltered)
        else if h.FlowKey() in pol.allowed || h.FlowKey().Reverse() in pol.allowed then Some(Allowed)
        else if h.DstKey() in pol.localIps then Some(LocalDestination)
        else None
  }

  /** One packet, given what the fragment and connection tables hold for it. */
  function Decide(lim: Limits, pol: Policy, s: Aux, early: Option<Path>, found: Lookup, f: Frame, now: u64): Outcome
    requires early.None? ==> f.l3.Ip?
  {
    match early
    case None => Limit(lim, pol, s, found, f, f.l3.h, now)
    case Some(p) => Finish(s, p, None, None)
  }

  function LookUpFrame(timeouts: Timeouts, ct: CtTable, f: Frame, now: u64): Lookup {
    if f.l3.Ip? then LookUp(timeouts, ct, f.l3.h.FlowKey(), now) else Unknown
  }

  function Written(ct: CtTable, w: Option<CtWrite>): CtTable {
    if w.Some? then ct[w.value.key := w.value.value] else ct
  }

  /** One packet through `try_k_firewall`. */
  function Packet(lim: Limits, pol: Policy, s: State, f: Frame, now: u64): (State, Verdict) {
    var early := EarlyPath(pol, s.frag, f, now);
    var o := Decide(lim, pol, s.aux, early, LookUpFrame(lim.timeouts, s.ct, f, now), f, now);
    var p := o.verdict.path;
    (State(Written(s.ct, o.write), TrackFragment(s.frag, f, p, now), o.aux, Bump(s.stats, p)), o.verdict)
  }

  /** One outbound packet through `kfw_tc_egress`: its reply is expected. */
  function Egress(s: State, h: Header, now: u64): State {
    s.(ct := s.ct[h.FlowKey().Reverse() := NatReply(now)])
  }

  // ---------------------------------------------------------------- the daemon's periodic passes

  /** `prune_conntrack`. */
  function PruneTable(timeouts: Timeouts, ct: CtTable, now: u64): CtTable {
    map k | k in ct && Live(timeouts, ct, k, now) :: ct[k]
  }

  /** `prune_frag_track`. */
  function PruneFragments(frag: FragTable, timeoutSecs: u64, now: u64): FragTable {
    map k | k in frag && !(now > frag[k] && now - frag[k] > Min(timeoutSecs * NANOS_PER_SEC, MAX_U64)) :: frag[k]
  }

  /** The source a conntrack entry is tallied under: IPv4 is rebuilt from its first four bytes. */
  function TallyKey(k: FiveTuple): IpKey {
    if k.family == FAMILY_IPV4 then IpKey(FAMILY_IPV4, k.srcIp[..4] + ZEROS_12) else IpKey(FAMILY_IPV6, k.srcIp)
  }

  function KeysFrom(keys: set<FiveTuple>, src: IpKey): set<FiveTuple> {
    set k | k in keys && TallyKey(k) == src
  }

  /** How many of the keys each source has, with no entry for a source that has none. */
  function Tally(keys: set<FiveTuple>): map<IpKey, u32> {
    map src | src in (set k | k in keys :: TallyKey(k)) :: Min(|KeysFrom(keys, src)|, MAX_U32)
  }

  function OwnKeys(ct: CtTable): set<FiveTuple> {
    set k | k in ct && !ct[k].isNat
  }

  function HalfOpenKeys(ct: CtTable): set<FiveTuple> {
    set k | k in ct && !ct[k].isNat && ct[k].state.HalfOpen()
  }

  /** `reconcile_conn_counts`: both tables of counters are replaced by exact tallies. */
  function ReconcileCounts(s: State): State {
    s.(aux := s.aux.(counts := Counts(Tally(OwnKeys(s.ct)), Tally(HalfOpenKeys(s.ct)))))
  }
}
