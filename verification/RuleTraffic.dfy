/** From rule headers to packets on the wire: which frames the prefilter lets through. */
module RuleTraffic {
  import opened Types
  import opened Suricata
  import opened SuricataMeaning
  import opened Pipeline
  import opened PacketMeaning
  import opened SentFrames
  import Frames

  /** The flow of an IPv4 packet as it was sent; a later fragment shows no ports. */
  function SentFlow(v: V4Fields, src: u32, dst: u32, seg: Segment): Flow {
    var ports := if SentFragment(v).offset != 0 then (0, 0) else seg.Ports();
    Flow(seg.Proto(), src, dst, ports.0, ports.1)
  }

  /** The bytes of a frame. */
  function SentV4Frame(macs: seq<byte>, tag: Option<(u16, u16)>, v: V4Fields, src: u32, dst: u32,
                       options: seq<byte>, seg: Segment): seq<byte>
    requires |macs| == 12 && |options| % 4 == 0 && |options| <= 40 && seg.Valid()
  {
    LinkBytes(macs, tag, 0x0800) + SentFrames.V4Bytes(v, seg.Proto(), src, dst, options) + SegmentBytes(seg)
  }

  /** With the tables of any rules, a frame as it was sent is let through by the prefilter exactly when some
      contributing rule's header matches what was sent, one way or the other. */
  lemma RulesOnTheWire(pol: Policy, rules: seq<SuriRule>, ifindex: u32, macs: seq<byte>, tag: Option<(u16, u16)>,
                       v: V4Fields, src: u32, dst: u32, options: seq<byte>, seg: Segment)
    requires pol.prefilter && pol.rules == AllTuples(rules)
    requires |macs| == 12 && TagOk(tag, 0x0800) && |options| % 4 == 0 && |options| <= 40
    requires seg.Valid() && |SegmentBytes(seg)| <= 0x1_0000
    ensures var f := Frames.ReadFrame(ifindex, SentV4Frame(macs, tag, v, src, dst, options, seg));
            && f.Some? && f.value.l3.Ip?
            && (!MissesPrefilter(pol, f.value.l3.h) <==> SomeRuleMatches(rules, SentFlow(v, src, dst, seg)))
  {
    V4FrameReadsBack(ifindex, macs, tag, v, src, dst, options, seg);
    PrefilterMeaning(rules, SentFlow(v, src, dst, seg));
  }

  /** The addresses and ports of a rule, against those of a packet. */
  ghost predicate EndsMatch(rule: ParsedRule, src: u32, sport: u16, dst: u32, dport: u16) {
    && AddrMatches(rule.srcIp, src) && PortMatches(rule.srcPort, sport)
    && AddrMatches(rule.dstIp, dst) && PortMatches(rule.dstPort, dport)
  }

  ghost predicate AddrsMatch(rule: ParsedRule, src: u32, dst: u32) {
    AddrMatches(rule.srcIp, src) && AddrMatches(rule.dstIp, dst)
  }

  /** What a rule for one protocol says of a segment: TCP and UDP by addresses and ports, ICMP by addresses,
      one way or the other. */
  ghost predicate RuleSays(rule: ParsedRule, src: u32, dst: u32, seg: Segment) {
    var (sport, dport) := seg.Ports();
    var ends := EndsMatch(rule, src, sport, dst, dport) || EndsMatch(rule, dst, dport, src, sport);
    if rule.proto == "tcp" then seg.Tcp? && ends
    else if rule.proto == "udp" then seg.Udp? && ends
    else seg.Proto() == 1 && (AddrsMatch(rule, src, dst) || AddrsMatch(rule, dst, src))
  }

  /** What one header says of one direction, by its protocol name. */
  lemma HeaderByName(rule: ParsedRule, f: Flow)
    requires rule.proto in {"tcp", "udp", "icmp"} && (f.proto == 1 ==> f.dport == 0)
    ensures rule.proto == "tcp" ==> (HeaderMatches(rule, f) <==>
                                     f.proto == 6 && EndsMatch(rule, f.src, f.sport, f.dst, f.dport))
    ensures rule.proto == "udp" ==> (HeaderMatches(rule, f) <==>
                                     f.proto == 17 && EndsMatch(rule, f.src, f.sport, f.dst, f.dport))
    ensures rule.proto == "icmp" ==> (HeaderMatches(rule, f) <==> f.proto == 1 && AddrsMatch(rule, f.src, f.dst))
  {
  }

  lemma RuleMatchesSegment(r: SuriRule, src: u32, dst: u32, seg: Segment)
    requires r.Contributes() && r.header.proto in {"tcp", "udp", "icmp"} && seg.Valid()
    ensures RuleMatches(r, Flow(seg.Proto(), src, dst, seg.Ports().0, seg.Ports().1))
            <==> RuleSays(r.header, src, dst, seg)
  {
    var f := Flow(seg.Proto(), src, dst, seg.Ports().0, seg.Ports().1);
    HeaderByName(r.header, f);
    HeaderByName(r.header, f.Reverse());
  }

  /** In particular a rule for TCP lets through exactly the TCP segments whose addresses and ports it names, one
      way or the other; so does a rule for UDP with datagrams, and one for ICMP by addresses. */
  lemma OneRuleOnTheWire(pol: Policy, r: SuriRule, ifindex: u32, macs: seq<byte>, tag: Option<(u16, u16)>,
                         v: V4Fields, src: u32, dst: u32, options: seq<byte>, seg: Segment)
    requires pol.prefilter && pol.rules == AllTuples([r]) && r.Contributes() && r.header.proto in {"tcp", "udp", "icmp"}
    requires |macs| == 12 && TagOk(tag, 0x0800) && |options| % 4 == 0 && |options| <= 40
    requires seg.Valid() && |SegmentBytes(seg)| <= 0x1_0000 && v.frag % 0x2000 == 0
    ensures var f := Frames.ReadFrame(ifindex, SentV4Frame(macs, tag, v, src, dst, options, seg));
            && f.Some? && f.value.l3.Ip?
            && (!MissesPrefilter(pol, f.value.l3.h) <==> RuleSays(r.header, src, dst, seg))
  {
    RulesOnTheWire(pol, [r], ifindex, macs, tag, v, src, dst, options, seg);
    OneRule(r, SentFlow(v, src, dst, seg));
    RuleMatchesSegment(r, src, dst, seg);
  }

  lemma OneRule(r: SuriRule, f: Flow)
    ensures SomeRuleMatches([r], f) <==> RuleMatches(r, f)
  {
    SomeRuleSnoc([], r, f);
    assert [] + [r] == [r];
  }
}
