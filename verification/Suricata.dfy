/** The Suricata header prefilter: rule headers compiled into prefix keys of four
    longest-prefix-match tables, and the lookups the data plane makes in them. */
module Suricata {
  import opened Types
  import opened Bytes

  // ---------------------------------------------------------------- rule headers

  /** An address field after its text is split up. */
  datatype AddrSpec =
    | AnyAddr
    | Net(ip: u32, prefix: u32)
    | AddrVariable
    | NegatedAddr
    | Ipv6Addr
    | BadAddr
    | AddrList(parts: seq<AddrSpec>)

  /** A port field after its text is split up; an open range end is already 0 or 65535. */
  datatype PortSpec =
    | AnyPort
    | Port(p: u16)
    | Range(lo: u16, hi: u16)
    | NegatedPort
    | BadPort
    | PortList(parts: seq<PortSpec>)

  /** A rule header; the protocol name is in lower case. */
  datatype ParsedRule = ParsedRule(
    proto: string, srcIp: AddrSpec, srcPort: PortSpec, dstIp: AddrSpec, dstPort: PortSpec)

  /** `Skip`: a sound rule the prefilter cannot hold. `Reject`: bad input. */
  datatype Spec<+T> = Good(value: T) | Skip | Reject

  type Cidr = (u32, nat)

  const MAX_TUPLES_PER_RULE := 256

  function NetworkOf(ip: u32, prefix: nat): u32
    requires prefix <= 32
  {
    ClearLowKeepsTop(ip, 32 - prefix);
    if prefix == 0 then 0 else ClearLow(ip, 32 - prefix)
  }

  function AddrSpecOf(spec: AddrSpec): (r: Spec<seq<Cidr>>)
    ensures r.Good? ==> forall c | c in r.value :: c.1 <= 32
    decreases spec, 1
  {
    match spec
    case AnyAddr => Good([(0, 0)])
    case Net(ip, prefix) => if prefix > 32 then Reject else Good([(NetworkOf(ip, prefix), prefix)])
    case AddrVariable => Skip
    case NegatedAddr => Skip
    case Ipv6Addr => Skip
    case BadAddr => Reject
    case AddrList(parts) => AddrSpecsOf(parts)
  }

  /** The parts of a list in order; the first that fails decides. */
  function AddrSpecsOf(parts: seq<AddrSpec>): (r: Spec<seq<Cidr>>)
    ensures r.Good? ==> forall c | c in r.value :: c.1 <= 32
    decreases parts, 0
  {
    if parts == [] then Good([])
    else
      match AddrSpecOf(parts[0])
      case Skip => Skip
      case Reject => Reject
      case Good(here) =>
        match AddrSpecsOf(parts[1..])
        case Skip => Skip
        case Reject => Reject
        case Good(rest) => Good(here + rest)
  }

  /** The ports from `lo` to `hi` without port 0, which stands for "any". */
  function PortsFrom(lo: nat, hi: u16): seq<u16>
    decreases hi + 1 - lo
  {
    if lo > hi then []
    else if lo == 0 then PortsFrom(1, hi)
    else [lo] + PortsFrom(lo + 1, hi)
  }

  function PortSpecOf(spec: PortSpec): Spec<seq<u16>>
    decreases spec, 1
  {
    match spec
    case AnyPort => Good([0])
    case Port(p) => Good([p])
    case Range(lo, hi) =>
      if hi < lo then Reject
      else if hi - lo + 1 > 256 then Skip
      else Good(PortsFrom(lo, hi))
    case NegatedPort => Skip
    case BadPort => Reject
    case PortList(parts) => PortSpecsOf(parts)
  }

  function PortSpecsOf(parts: seq<PortSpec>): Spec<seq<u16>>
    decreases parts, 0
  {
    if parts == [] then Good([])
    else
      match PortSpecOf(parts[0])
      case Skip => Skip
      case Reject => Reject
      case Good(here) =>
        match PortSpecsOf(parts[1..])
        case Skip => Skip
        case Reject => Reject
        case Good(rest) => Good(here + rest)
  }

  function ProtoByte(name: string): Option<byte> {
    if name == "tcp" then Some(6)
    else if name == "udp" then Some(17)
    else if name == "icmp" then Some(1)
    else if name == "icmp6" || name == "icmpv6" then Some(58)
    else if name == "igmp" then Some(2)
    else if name == "gre" then Some(47)
    else if name == "esp" then Some(50)
    else if name == "ah" then Some(51)
    else if name == "sctp" then Some(132)
    else None
  }

  predicate Portless(proto: byte) {
    proto in {1, 2, 47, 50, 51, 58}
  }

  // ---------------------------------------------------------------- tables and lookups

  datatype LpmKey = LpmKey(prefixLen: nat, data: seq<byte>)

  /** A trie lookup with a full-length key succeeds when some stored key is a prefix of it. */
  predicate LpmHit(table: seq<LpmKey>, data: seq<byte>) {
    exists k | k in table :: KeyCovers(k, data)
  }

  predicate KeyCovers(k: LpmKey, data: seq<byte>) {
    && |k.data| == |data|
    && k.prefixLen <= 8 * |data|
    && TopBits(k.data, k.prefixLen) == TopBits(data, k.prefixLen)
  }

  datatype SuriTuples = SuriTuples(
    dst: seq<LpmKey>, dstAny: seq<LpmKey>, src: seq<LpmKey>, srcAny: seq<LpmKey>)
  {
    predicate IsEmpty() {
      dst == [] && dstAny == [] && src == [] && srcAny == []
    }

    function Plus(t: SuriTuples): SuriTuples {
      SuriTuples(dst + t.dst, dstAny + t.dstAny, src + t.src, srcAny + t.srcAny)
    }
  }

  const NO_TUPLES := SuriTuples([], [], [], [])

  /** The IPv4 five-tuple of a packet, in host order. */
  datatype Flow = Flow(proto: byte, src: u32, dst: u32, sport: u16, dport: u16) {
    function Reverse(): Flow {
      Flow(proto, dst, src, dport, sport)
    }
  }

  function Head(proto: byte, dport: u16): (b: seq<byte>)
    ensures |b| == 3
  {
    [proto] + BytesOfU16(dport)
  }

  /** `[proto, dport, exact, cidr, sport]`, 13 bytes. */
  function PairKey(proto: byte, dport: u16, exact: u32, cidr: u32, sport: u16): (b: seq<byte>)
    ensures |b| == 13
  {
    Head(proto, dport) + BytesOfU32(exact) + BytesOfU32(cidr) + BytesOfU16(sport)
  }

  /** `[proto, dport, cidr, sport]`, 9 bytes. */
  function SideKey(proto: byte, dport: u16, cidr: u32, sport: u16): (b: seq<byte>)
    ensures |b| == 9
  {
    Head(proto, dport) + BytesOfU32(cidr) + BytesOfU16(sport)
  }

  /** The data plane's lookup of one view of a flow. */
  predicate RulesHit(t: SuriTuples, f: Flow) {
    || LpmHit(t.dst, PairKey(f.proto, f.dport, f.src, f.dst, f.sport))
    || LpmHit(t.dstAny, SideKey(f.proto, f.dport, f.dst, f.sport))
    || LpmHit(t.src, PairKey(f.proto, f.dport, f.dst, f.src, f.sport))
    || LpmHit(t.srcAny, SideKey(f.proto, f.dport, f.src, f.sport))
  }

  /** A new flow is let through when its forward or its reverse view hits. */
  predicate PrefilterHit(t: SuriTuples, f: Flow) {
    RulesHit(t, f) || RulesHit(t, f.Reverse())
  }

  // ---------------------------------------------------------------- expansion

  /** One source, destination, source port and destination port of a rule; `None` is "any port". */
  datatype Combo = Combo(
    proto: byte, src: Cidr, sport: Option<u16>, dst: Cidr, dport: Option<u16>)
  {
    function Swap(): Combo {
      Combo(proto, dst, dport, src, sport)
    }
  }

  function PortOrZero(p: Option<u16>): u16 {
    if p.Some? then p.value else 0
  }

  function PortBits(p: Option<u16>): nat {
    if p.Some? then 16 else 0
  }

  /** Writes one orientation into the table its wildcards call for, if any table can hold it. */
  function PushOrientation(t: SuriTuples, o: Combo): (SuriTuples, bool) {
    if o.dport.None? then (t, false)
    else
      var dp, sp, bits := o.dport.value, PortOrZero(o.sport), PortBits(o.sport);
      var (sn, s), (dn, d) := o.src, o.dst;
      if s == 32 && 1 <= d <= 32 then
        if d < 32 && o.sport.Some? then (t, false)
        else (t.(dst := t.dst + [LpmKey(56 + d + bits, PairKey(o.proto, dp, sn, dn, sp))]), true)
      else if s == 0 && d <= 32 then
        if d < 32 && o.sport.Some? then (t, false)
        else (t.(dstAny := t.dstAny + [LpmKey(24 + d + bits, SideKey(o.proto, dp, dn, sp))]), true)
      else if 1 <= s <= 32 && d == 32 then
        if s < 32 && o.sport.Some? then (t, false)
        else (t.(src := t.src + [LpmKey(56 + s + bits, PairKey(o.proto, dp, dn, sn, sp))]), true)
      else if 1 <= s <= 32 && d == 0 then
        if s < 32 && o.sport.Some? then (t, false)
        else (t.(srcAny := t.srcAny + [LpmKey(24 + s + bits, SideKey(o.proto, dp, sn, sp))]), true)
      else (t, false)
  }

  function PushBoth(acc: (SuriTuples, bool), c: Combo): (SuriTuples, bool) {
    var (t1, fwd) := PushOrientation(acc.0, c);
    var (t2, rev) := PushOrientation(t1, c.Swap());
    (t2, acc.1 && (fwd || rev))
  }

  function PushAll(cs: seq<Combo>): (SuriTuples, bool) {
    if cs == [] then (NO_TUPLES, true) else PushBoth(PushAll(cs[..|cs| - 1]), cs[|cs| - 1])
  }

  function MakeCombo(proto: byte, src: Cidr, dst: Cidr, sport: u16, dport: u16): Combo {
    var sp := if Portless(proto) || sport == 0 then None else Some(sport);
    var dp := if Portless(proto) then Some(0) else if dport == 0 then None else Some(dport);
    Combo(proto, src, sp, dst, dp)
  }

  function CombosForSport(proto: byte, src: Cidr, dst: Cidr, sport: u16, dports: seq<u16>): seq<Combo> {
    if dports == [] then []
    else CombosForSport(proto, src, dst, sport, dports[..|dports| - 1])
         + [MakeCombo(proto, src, dst, sport, dports[|dports| - 1])]
  }

  function CombosForDst(proto: byte, src: Cidr, dst: Cidr, sports: seq<u16>, dports: seq<u16>): seq<Combo> {
    if sports == [] then []
    else CombosForDst(proto, src, dst, sports[..|sports| - 1], dports)
         + CombosForSport(proto, src, dst, sports[|sports| - 1], dports)
  }

  function CombosForSrc(proto: byte, src: Cidr, dsts: seq<Cidr>, sports: seq<u16>, dports: seq<u16>): seq<Combo> {
    if dsts == [] then []
    else CombosForSrc(proto, src, dsts[..|dsts| - 1], sports, dports)
         + CombosForDst(proto, src, dsts[|dsts| - 1], sports, dports)
  }

  function Combos(proto: byte, srcs: seq<Cidr>, dsts: seq<Cidr>, sports: seq<u16>, dports: seq<u16>): seq<Combo> {
    if srcs == [] then []
    else Combos(proto, srcs[..|srcs| - 1], dsts, sports, dports)
         + CombosForSrc(proto, srcs[|srcs| - 1], dsts, sports, dports)
  }

  function PortsOf(proto: byte, spec: PortSpec): Spec<seq<u16>> {
    if Portless(proto) then Good([0]) else PortSpecOf(spec)
  }

  /** What a rule header contributes to the four tables. */
  function Expand(rule: ParsedRule): Spec<SuriTuples> {
    if rule.proto in {"ip6", "ipv6", "icmp6", "icmpv6"} then Skip
    else if ProtoByte(rule.proto).None? then Skip
    else
      var proto := ProtoByte(rule.proto).value;
      match AddrSpecOf(rule.srcIp)
      case Skip => Skip
      case Reject => Reject
      case Good(srcs) =>
        match AddrSpecOf(rule.dstIp)
        case Skip => Skip
        case Reject => Reject
        case Good(dsts) =>
          match PortsOf(proto, rule.srcPort)
          case Skip => Skip
          case Reject => Reject
          case Good(sports) =>
            match PortsOf(proto, rule.dstPort)
            case Skip => Skip
            case Reject => Reject
            case Good(dports) =>
              if |srcs| * |dsts| * |sports| * |dports| * 2 > MAX_TUPLES_PER_RULE then Reject
              else
                var (tuples, allExpressible) := PushAll(Combos(proto, srcs, dsts, sports, dports));
                if allExpressible then Good(tuples) else Skip
  }

  /** `expand_header`: the four nested loops over sources, destinations and ports. */
  method ExpandHeader(rule: ParsedRule) returns (r: Spec<SuriTuples>)
    ensures r == Expand(rule)
  {
    if rule.proto in {"ip6", "ipv6", "icmp6", "icmpv6"} { return Skip; }
    if ProtoByte(rule.proto).None? { return Skip; }
    var proto := ProtoByte(rule.proto).value;
    var srcs := AddrSpecOf(rule.srcIp);
    if !srcs.Good? { return if srcs.Skip? then Skip else Reject; }
    var dsts := AddrSpecOf(rule.dstIp);
    if !dsts.Good? { return if dsts.Skip? then Skip else Reject; }
    var sports := PortsOf(proto, rule.srcPort);
    if !sports.Good? { return if sports.Skip? then Skip else Reject; }
    var dports := PortsOf(proto, rule.dstPort);
    if !dports.Good? { return if dports.Skip? then Skip else Reject; }
    if |srcs.value| * |dsts.value| * |sports.value| * |dports.value| * 2 > MAX_TUPLES_PER_RULE {
      return Reject;
    }
    var tuples, ok := ExpandCombos(proto, srcs.value, dsts.value, sports.value, dports.value);
    r := if ok then Good(tuples) else Skip;
  }

  method ExpandCombos(proto: byte, srcs: seq<Cidr>, dsts: seq<Cidr>, sports: seq<u16>, dports: seq<u16>)
    returns (tuples: SuriTuples, allExpressible: bool)
    ensures (tuples, allExpressible) == PushAll(Combos(proto, srcs, dsts, sports, dports))
  {
    tuples, allExpressible := NO_TUPLES, true;
    ghost var done: seq<Combo> := [];
    for i := 0 to |srcs|
      invariant done == Combos(proto, srcs[..i], dsts, sports, dports)
      invariant (tuples, allExpressible) == PushAll(done)
    {
      tuples, allExpressible, done := ExpandSource(proto, srcs[i], dsts, sports, dports, tuples, allExpressible, done);
      assert srcs[..i + 1][..i] == srcs[..i];
    }
    assert srcs[..|srcs|] == srcs;
  }

  method ExpandSource(proto: byte, src: Cidr, dsts: seq<Cidr>, sports: seq<u16>, dports: seq<u16>,
                      tuples0: SuriTuples, all0: bool, ghost done0: seq<Combo>)
    returns (tuples: SuriTuples, allExpressible: bool, ghost done: seq<Combo>)
    requires (tuples0, all0) == PushAll(done0)
    ensures done == done0 + CombosForSrc(proto, src, dsts, sports, dports)
    ensures (tuples, allExpressible) == PushAll(done)
  {
    tuples, allExpressible, done := tuples0, all0, done0;
    for j := 0 to |dsts|
      invariant done == done0 + CombosForSrc(proto, src, dsts[..j], sports, dports)
      invariant (tuples, allExpressible) == PushAll(done)
    {
      tuples, allExpressible, done := ExpandPair(proto, src, dsts[j], sports, dports, tuples, allExpressible, done);
      assert dsts[..j + 1][..j] == dsts[..j];
    }
    assert dsts[..|dsts|] == dsts;
  }

  method ExpandPair(proto: byte, src: Cidr, dst: Cidr, sports: seq<u16>, dports: seq<u16>,
                    tuples0: SuriTuples, all0: bool, ghost done0: seq<Combo>)
    returns (tuples: SuriTuples, allExpressible: bool, ghost done: seq<Combo>)
    requires (tuples0, all0) == PushAll(done0)
    ensures done == done0 + CombosForDst(proto, src, dst, sports, dports)
    ensures (tuples, allExpressible) == PushAll(done)
  {
    tuples, allExpressible, done := tuples0, all0, done0;
    for k := 0 to |sports|
      invariant done == done0 + CombosForDst(proto, src, dst, sports[..k], dports)
      invariant (tuples, allExpressible) == PushAll(done)
    {
      ghost var before := done;
      for l := 0 to |dports|
        invariant done == before + CombosForSport(proto, src, dst, sports[k], dports[..l])
        invariant (tuples, allExpressible) == PushAll(done)
      {
        var c := MakeCombo(proto, src, dst, sports[k], dports[l]);
        var (t1, fwd) := PushOrientation(tuples, c);
        var (t2, rev) := PushOrientation(t1, c.Swap());
        tuples := t2;
        if !fwd && !rev {
          allExpressible := false;
        }
        assert (done + [c])[..|done|] == done;
        assert dports[..l + 1][..l] == dports[..l];
        done := done + [c];
      }
      assert dports[..|dports|] == dports && sports[..k + 1][..k] == sports[..k];
    }
    assert sports[..|sports|] == sports;
  }

  /** A rule held by the daemon. */
  datatype SuriRule = SuriRule(enabled: bool, header: ParsedRule) {
    /** A disabled rule, a skipped rule and a bad rule contribute nothing. */
    function Tuples(): SuriTuples {
      if enabled && Expand(header).Good? then Expand(header).value else NO_TUPLES
    }

    predicate Contributes() {
      enabled && Expand(header).Good?
    }
  }

  function AllTuples(rules: seq<SuriRule>): SuriTuples {
    if rules == [] then NO_TUPLES else AllTuples(rules[..|rules| - 1]).Plus(rules[|rules| - 1].Tuples())
  }

  /** `resync_suri_prefilter` and `sync_suricata_rules`: all tuples, and whether the switch goes on. */
  method ResyncPrefilter(rules: seq<SuriRule>, configured: bool) returns (tables: SuriTuples, on: bool)
    ensures tables == AllTuples(rules)
    ensures on == (configured && !tables.IsEmpty())
  {
    tables := NO_TUPLES;
    for i := 0 to |rules|
      invariant tables == AllTuples(rules[..i])
    {
      if rules[i].enabled {
        var e := ExpandHeader(rules[i].header);
        if e.Good? {
          tables := tables.Plus(e.value);
        }
      }
      assert rules[..i + 1][..i] == rules[..i];
    }
    assert rules[..|rules|] == rules;
    on := configured && !tables.IsEmpty();
  }
}
