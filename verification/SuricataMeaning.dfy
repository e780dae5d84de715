/** The prefilter means what the rule headers say. */
module SuricataMeaning {
  import opened Types
  import opened Bytes
  import opened Suricata

  // ---------------------------------------------------------------- what a header says

  predicate InNetwork(a: u32, net: u32, prefix: nat)
    requires prefix <= 32
  {
    ShiftRight(a, 32 - prefix) == ShiftRight(net, 32 - prefix)
  }

  ghost predicate AddrMatches(spec: AddrSpec, a: u32) {
    match spec
    case AnyAddr => true
    case Net(ip, prefix) => prefix <= 32 && InNetwork(a, ip, prefix)
    case AddrList(parts) => exists p | p in parts :: AddrMatches(p, a)
    case _ => false
  }

  /** Port 0 in a rule is a wildcard; a range never covers port 0. */
  ghost predicate PortMatches(spec: PortSpec, x: u16) {
    match spec
    case AnyPort => true
    case Port(p) => p == 0 || x == p
    case Range(lo, hi) => x != 0 && lo <= x <= hi
    case PortList(parts) => exists p | p in parts :: PortMatches(p, x)
    case _ => false
  }

  /** The assigned number of the protocol a rule names. */
  predicate Names(name: string, proto: byte) {
    || (proto == 6 && name == "tcp") || (proto == 17 && name == "udp") || (proto == 132 && name == "sctp")
    || (proto == 1 && name == "icmp") || (proto == 58 && (name == "icmp6" || name == "icmpv6"))
    || (proto == 2 && name == "igmp") || (proto == 47 && name == "gre")
    || (proto == 50 && name == "esp") || (proto == 51 && name == "ah")
  }

  /** Of the protocols a rule can name, those with ports. */
  predicate HasPorts(proto: byte) {
    proto == 6 || proto == 17 || proto == 132
  }

  /** A header matches a flow; for a protocol without ports only destination port 0 matches. */
  ghost predicate HeaderMatches(rule: ParsedRule, f: Flow) {
    && Names(rule.proto, f.proto)
    && AddrMatches(rule.srcIp, f.src)
    && AddrMatches(rule.dstIp, f.dst)
    && (if HasPorts(f.proto) then PortMatches(rule.srcPort, f.sport) && PortMatches(rule.dstPort, f.dport)
        else f.dport == 0)
  }

  lemma NamedProtocol(name: string, proto: byte)
    ensures ProtoByte(name) == Some(proto) <==> Names(name, proto)
    ensures Names(name, proto) ==> (Portless(proto) <==> !HasPorts(proto))
  {
  }

  // ---------------------------------------------------------------- fields

  lemma NoBitsAbove32(x: u32)
    ensures ShiftRight(x, 32) == 0
  {
    ValueOfU32(x);
    TopBitsDrop([], BytesOfU32(x), 0);
    assert [] + BytesOfU32(x) == BytesOfU32(x);
  }

  lemma NetworkOfSameMatches(a: u32, ip: u32, prefix: nat)
    requires prefix <= 32
    ensures InNetwork(a, NetworkOf(ip, prefix), prefix) <==> InNetwork(a, ip, prefix)
  {
    ClearLowKeepsTop(ip, 32 - prefix);
    if prefix == 0 {
      NoBitsAbove32(ip);
      NoBitsAbove32(0);
    }
  }

  ghost predicate InSome(cs: seq<Cidr>, a: u32)
    requires forall c | c in cs :: c.1 <= 32
  {
    exists c | c in cs :: InNetwork(a, c.0, c.1)
  }

  lemma {:induction false} AddrSpecMeaning(spec: AddrSpec, a: u32)
    requires AddrSpecOf(spec).Good?
    ensures InSome(AddrSpecOf(spec).value, a) <==> AddrMatches(spec, a)
    decreases spec, 1
  {
    var cs := AddrSpecOf(spec).value;
    match spec {
      case AnyAddr =>
        NoBitsAbove32(a);
        NoBitsAbove32(0);
        assert (0, 0) in cs && InNetwork(a, 0, 0);
      case Net(ip, prefix) =>
        NetworkOfSameMatches(a, ip, prefix);
        assert cs == [(NetworkOf(ip, prefix), prefix)] && cs[0] in cs;
      case AddrList(parts) => AddrSpecsMeaning(parts, a);
      case _ =>
    }
  }

  lemma {:induction false} AddrSpecsMeaning(parts: seq<AddrSpec>, a: u32)
    requires AddrSpecsOf(parts).Good?
    ensures InSome(AddrSpecsOf(parts).value, a) <==> exists p | p in parts :: AddrMatches(p, a)
    decreases parts, 0
  {
    if parts != [] {
      var here, rest := AddrSpecOf(parts[0]).value, AddrSpecsOf(parts[1..]).value;
      AddrSpecMeaning(parts[0], a);
      AddrSpecsMeaning(parts[1..], a);
      assert forall c :: c in here + rest <==> c in here || c in rest;
      assert parts == [parts[0]] + parts[1..];
      assert forall p :: p in parts <==> p == parts[0] || p in parts[1..];
    }
  }

  /** Some listed port is the wildcard or the port itself. */
  ghost predicate PortInSome(ports: seq<u16>, x: u16) {
    0 in ports || x in ports
  }

  lemma {:induction false} PortsFromMembers(lo: nat, hi: u16)
    ensures forall x: u16 :: x in PortsFrom(lo, hi) <==> x != 0 && lo <= x <= hi
    decreases hi + 1 - lo
  {
    if lo <= hi {
      PortsFromMembers(lo + 1, hi);
    }
  }

  lemma {:induction false} PortSpecMeaning(spec: PortSpec, x: u16)
    requires PortSpecOf(spec).Good?
    ensures PortInSome(PortSpecOf(spec).value, x) <==> PortMatches(spec, x)
    decreases spec, 1
  {
    match spec {
      case Range(lo, hi) => PortsFromMembers(lo, hi);
      case PortList(parts) => PortSpecsMeaning(parts, x);
      case _ =>
    }
  }

  lemma {:induction false} PortSpecsMeaning(parts: seq<PortSpec>, x: u16)
    requires PortSpecsOf(parts).Good?
    ensures PortInSome(PortSpecsOf(parts).value, x) <==> exists p | p in parts :: PortMatches(p, x)
    decreases parts, 0
  {
    if parts != [] {
      PortSpecMeaning(parts[0], x);
      PortSpecsMeaning(parts[1..], x);
      assert forall p :: p in parts <==> p == parts[0] || p in parts[1..];
    }
  }

  // ---------------------------------------------------------------- one key

  predicate PortAgrees(p: Option<u16>, x: u16) {
    p.None? || p.value == x
  }

  ghost predicate ComboMatches(c: Combo, f: Flow) {
    && c.src.1 <= 32 && c.dst.1 <= 32
    && c.proto == f.proto
    && InNetwork(f.src, c.src.0, c.src.1)
    && InNetwork(f.dst, c.dst.0, c.dst.1)
    && PortAgrees(c.sport, f.sport)
    && PortAgrees(c.dport, f.dport)
  }

  /** A key of whole bytes, then `d` leading bits of an address, then the port when `d` is 32. */
  lemma KeyMeaning(h: seq<byte>, h': seq<byte>, net: u32, a: u32, d: nat, sp: Option<u16>, sport: u16)
    requires |h| == |h'| && d <= 32 && (sp.Some? ==> d == 32)
    ensures KeyCovers(LpmKey(8 * |h| + d + PortBits(sp), h + BytesOfU32(net) + BytesOfU16(PortOrZero(sp))),
                      h' + BytesOfU32(a) + BytesOfU16(sport))
            <==> h == h' && InNetwork(a, net, d) && PortAgrees(sp, sport)
  {
    var n, m, t, t' := BytesOfU32(net), BytesOfU32(a), BytesOfU16(PortOrZero(sp)), BytesOfU16(sport);
    ValueOfU32(net);
    ValueOfU32(a);
    if sp.None? {
      TopBitsDrop(h + n, t, 8 * |h| + d);
      TopBitsDrop(h' + m, t', 8 * |h| + d);
      PrefixSplit(h, n, h', m, d);
    } else {
      PrefixSplit(h + n + t, [], h' + m + t', [], 0);
      assert (h + n + t) + [] == h + n + t && (h' + m + t') + [] == h' + m + t';
      if h + n + t == h' + m + t' {
        assert h == (h + n + t)[..|h|] && h' == (h' + m + t')[..|h|];
        assert n == (h + n + t)[|h|..|h| + 4] && m == (h' + m + t')[|h|..|h| + 4];
        assert t == (h + n + t)[|h| + 4..] && t' == (h' + m + t')[|h| + 4..];
        BytesOfU16Injective(sp.value, sport);
      }
    }
  }

  lemma HeadInjective(p: byte, x: u16, p': byte, x': u16)
    ensures Head(p, x) == Head(p', x') <==> p == p' && x == x'
  {
    BytesOfU16Injective(x, x');
    var a, b := Head(p, x), Head(p', x');
    if a == b {
      assert BytesOfU16(x) == a[1..] && BytesOfU16(x') == b[1..];
      assert p == a[0] && p' == b[0];
    }
  }

  lemma PairHeadInjective(p: byte, x: u16, e: u32, p': byte, x': u16, e': u32)
    ensures Head(p, x) + BytesOfU32(e) == Head(p', x') + BytesOfU32(e') <==> p == p' && x == x' && e == e'
  {
    HeadInjective(p, x, p', x');
    var a, b := Head(p, x) + BytesOfU32(e), Head(p', x') + BytesOfU32(e');
    if a == b {
      assert Head(p, x) == a[..3] && Head(p', x') == b[..3];
      assert BytesOfU32(e) == a[3..] && BytesOfU32(e') == b[3..];
      BytesOfU32Injective(e, e');
    }
  }

  lemma HitPushed(table: seq<LpmKey>, k: LpmKey, data: seq<byte>)
    ensures LpmHit(table + [k], data) <==> LpmHit(table, data) || KeyCovers(k, data)
  {
    assert k in table + [k];
    assert forall x :: x in table + [k] <==> x in table || x == k;
  }

  /** Pushing an orientation adds exactly the flows it matches, or nothing when no table can hold it. */
  lemma PushMeaning(t: SuriTuples, o: Combo, f: Flow)
    requires o.src.1 <= 32 && o.dst.1 <= 32
    ensures var (t', ok) := PushOrientation(t, o);
            && (!ok ==> t' == t)
            && (ok ==> o.dport.Some? && (RulesHit(t', f) <==> RulesHit(t, f) || ComboMatches(o, f)))
  {
    var (t', ok) := PushOrientation(t, o);
    if ok {
      var dp, sp, bits := o.dport.value, PortOrZero(o.sport), PortBits(o.sport);
      var (sn, s) := o.src;
      var (dn, d) := o.dst;
      if s == 32 && 1 <= d {
        PairKeyPushed(t.dst, o.proto, dp, sn, dn, d, o.sport, f, f.src, f.dst);
      } else if s == 0 {
        SideKeyPushed(t.dstAny, o.proto, dp, dn, d, o.sport, f, f.dst);
        NoBitsAbove32(f.src);
        NoBitsAbove32(sn);
      } else if d == 32 {
        PairKeyPushed(t.src, o.proto, dp, dn, sn, s, o.sport, f, f.dst, f.src);
      } else {
        SideKeyPushed(t.srcAny, o.proto, dp, sn, s, o.sport, f, f.src);
        NoBitsAbove32(f.dst);
        NoBitsAbove32(dn);
      }
    }
  }

  lemma PairKeyPushed(table: seq<LpmKey>, proto: byte, dp: u16, exact: u32, net: u32, d: nat, sp: Option<u16>,
                      f: Flow, fExact: u32, fCidr: u32)
    requires d <= 32 && (sp.Some? ==> d == 32)
    ensures var k := LpmKey(56 + d + PortBits(sp), PairKey(proto, dp, exact, net, PortOrZero(sp)));
            var data := PairKey(f.proto, f.dport, fExact, fCidr, f.sport);
            LpmHit(table + [k], data) <==>
              || LpmHit(table, data)
              || (&& proto == f.proto && dp == f.dport && InNetwork(fExact, exact, 32)
                  && InNetwork(fCidr, net, d) && PortAgrees(sp, f.sport))
  {
    var k := LpmKey(56 + d + PortBits(sp), PairKey(proto, dp, exact, net, PortOrZero(sp)));
    HitPushed(table, k, PairKey(f.proto, f.dport, fExact, fCidr, f.sport));
    KeyMeaning(Head(proto, dp) + BytesOfU32(exact), Head(f.proto, f.dport) + BytesOfU32(fExact),
               net, fCidr, d, sp, f.sport);
    PairHeadInjective(proto, dp, exact, f.proto, f.dport, fExact);
  }

  lemma SideKeyPushed(table: seq<LpmKey>, proto: byte, dp: u16, net: u32, d: nat, sp: Option<u16>, f: Flow, fCidr: u32)
    requires d <= 32 && (sp.Some? ==> d == 32)
    ensures var k := LpmKey(24 + d + PortBits(sp), SideKey(proto, dp, net, PortOrZero(sp)));
            var data := SideKey(f.proto, f.dport, fCidr, f.sport);
            LpmHit(table + [k], data) <==>
              || LpmHit(table, data)
              || (proto == f.proto && dp == f.dport && InNetwork(fCidr, net, d) && PortAgrees(sp, f.sport))
  {
    var k := LpmKey(24 + d + PortBits(sp), SideKey(proto, dp, net, PortOrZero(sp)));
    HitPushed(table, k, SideKey(f.proto, f.dport, fCidr, f.sport));
    KeyMeaning(Head(proto, dp), Head(f.proto, f.dport), net, fCidr, d, sp, f.sport);
    HeadInjective(proto, dp, f.proto, f.dport);
  }

  // ---------------------------------------------------------------- all combinations

  ghost predicate WellFormed(cs: seq<Combo>) {
    forall c | c in cs :: c.src.1 <= 32 && c.dst.1 <= 32
  }

  /** A flow or its reverse is matched by one of the combinations. */
  ghost predicate MatchedEitherWay(cs: seq<Combo>, f: Flow) {
    exists c | c in cs :: ComboMatches(c, f) || ComboMatches(c, f.Reverse())
  }

  /** When every combination fits a table one way round, the double lookup sees exactly the combinations. */
  lemma {:induction false} PushAllMeaning(cs: seq<Combo>, f: Flow)
    requires WellFormed(cs) && PushAll(cs).1
    ensures PrefilterHit(PushAll(cs).0, f) <==> MatchedEitherWay(cs, f)
  {
    if cs != [] {
      var front, c := cs[..|cs| - 1], cs[|cs| - 1];
      PushAllMeaning(front, f);
      var t := PushAll(front).0;
      var t1 := PushOrientation(t, c).0;
      assert c.src.1 <= 32 && c.dst.1 <= 32;
      PushMeaning(t, c, f);
      PushMeaning(t, c, f.Reverse());
      PushMeaning(t1, c.Swap(), f);
      PushMeaning(t1, c.Swap(), f.Reverse());
      assert ComboMatches(c.Swap(), f) <==> ComboMatches(c, f.Reverse());
      assert ComboMatches(c.Swap(), f.Reverse()) <==> ComboMatches(c, f);
      assert cs == front + [c];
      assert forall x :: x in cs <==> x in front || x == c;
    }
  }

  ghost predicate AnyMatches(cs: seq<Combo>, f: Flow) {
    exists c | c in cs :: ComboMatches(c, f)
  }

  lemma AnyMatchesAppend(a: seq<Combo>, b: seq<Combo>, f: Flow)
    ensures AnyMatches(a + b, f) <==> AnyMatches(a, f) || AnyMatches(b, f)
    ensures WellFormed(a + b) <==> WellFormed(a) && WellFormed(b)
  {
    assert forall c :: c in a + b <==> c in a || c in b;
  }

  predicate SportFits(proto: byte, sport: u16, x: u16) {
    Portless(proto) || sport == 0 || sport == x
  }

  predicate DportFits(proto: byte, dport: u16, x: u16) {
    if Portless(proto) then x == 0 else dport == 0 || dport == x
  }

  ghost predicate CidrsFit(proto: byte, src: Cidr, dst: Cidr, f: Flow)
    requires src.1 <= 32 && dst.1 <= 32
  {
    proto == f.proto && InNetwork(f.src, src.0, src.1) && InNetwork(f.dst, dst.0, dst.1)
  }

  lemma {:induction false} CombosForSportMeaning(
    proto: byte, src: Cidr, dst: Cidr, sport: u16, dports: seq<u16>, f: Flow)
    requires src.1 <= 32 && dst.1 <= 32
    ensures var cs := CombosForSport(proto, src, dst, sport, dports);
            && WellFormed(cs)
            && (AnyMatches(cs, f) <==>
                CidrsFit(proto, src, dst, f) && SportFits(proto, sport, f.sport)
                && exists dp | dp in dports :: DportFits(proto, dp, f.dport))
  {
    if dports != [] {
      var front, last := dports[..|dports| - 1], dports[|dports| - 1];
      CombosForSportMeaning(proto, src, dst, sport, front, f);
      var c := MakeCombo(proto, src, dst, sport, last);
      AnyMatchesAppend(CombosForSport(proto, src, dst, sport, front), [c], f);
      assert AnyMatches([c], f) <==> ComboMatches(c, f) by { assert c in [c]; }
      assert ComboMatches(c, f) <==>
        CidrsFit(proto, src, dst, f) && SportFits(proto, sport, f.sport) && DportFits(proto, last, f.dport);
      assert forall x :: x in dports <==> x in front || x == last;
    }
  }

  lemma {:induction false} CombosForDstMeaning(
    proto: byte, src: Cidr, dst: Cidr, sports: seq<u16>, dports: seq<u16>, f: Flow)
    requires src.1 <= 32 && dst.1 <= 32
    ensures var cs := CombosForDst(proto, src, dst, sports, dports);
            && WellFormed(cs)
            && (AnyMatches(cs, f) <==>
                CidrsFit(proto, src, dst, f)
                && (exists sp | sp in sports :: SportFits(proto, sp, f.sport))
                && exists dp | dp in dports :: DportFits(proto, dp, f.dport))
  {
    if sports != [] {
      var front, last := sports[..|sports| - 1], sports[|sports| - 1];
      CombosForDstMeaning(proto, src, dst, front, dports, f);
      CombosForSportMeaning(proto, src, dst, last, dports, f);
      AnyMatchesAppend(CombosForDst(proto, src, dst, front, dports), CombosForSport(proto, src, dst, last, dports), f);
      assert sports == front + [last];
    }
  }

  ghost predicate PortsFit(proto: byte, sports: seq<u16>, dports: seq<u16>, f: Flow) {
    && (exists sp | sp in sports :: SportFits(proto, sp, f.sport))
    && (exists dp | dp in dports :: DportFits(proto, dp, f.dport))
  }

  lemma {:induction false} CombosForSrcMeaning(
    proto: byte, src: Cidr, dsts: seq<Cidr>, sports: seq<u16>, dports: seq<u16>, f: Flow)
    requires src.1 <= 32 && forall c | c in dsts :: c.1 <= 32
    ensures var cs := CombosForSrc(proto, src, dsts, sports, dports);
            && WellFormed(cs)
            && (AnyMatches(cs, f) <==>
                proto == f.proto && InNetwork(f.src, src.0, src.1) && InSome(dsts, f.dst)
                && PortsFit(proto, sports, dports, f))
  {
    if dsts != [] {
      var front, last := dsts[..|dsts| - 1], dsts[|dsts| - 1];
      CombosForSrcMeaning(proto, src, front, sports, dports, f);
      CombosForDstMeaning(proto, src, last, sports, dports, f);
      AnyMatchesAppend(CombosForSrc(proto, src, front, sports, dports),
                       CombosForDst(proto, src, last, sports, dports), f);
      assert dsts == front + [last];
    }
  }

  lemma {:induction false} CombosMeaning(
    proto: byte, srcs: seq<Cidr>, dsts: seq<Cidr>, sports: seq<u16>, dports: seq<u16>, f: Flow)
    requires (forall c | c in srcs :: c.1 <= 32) && (forall c | c in dsts :: c.1 <= 32)
    ensures var cs := Combos(proto, srcs, dsts, sports, dports);
            && WellFormed(cs)
            && (AnyMatches(cs, f) <==>
                proto == f.proto && InSome(srcs, f.src) && InSome(dsts, f.dst)
                && PortsFit(proto, sports, dports, f))
  {
    if srcs != [] {
      var front, last := srcs[..|srcs| - 1], srcs[|srcs| - 1];
      CombosMeaning(proto, front, dsts, sports, dports, f);
      CombosForSrcMeaning(proto, last, dsts, sports, dports, f);
      AnyMatchesAppend(Combos(proto, front, dsts, sports, dports), CombosForSrc(proto, last, dsts, sports, dports), f);
      assert srcs == front + [last];
    }
  }

  lemma PortsFitMeaning(rule: ParsedRule, f: Flow)
    requires ProtoByte(rule.proto) == Some(f.proto)
    requires PortsOf(f.proto, rule.srcPort).Good? && PortsOf(f.proto, rule.dstPort).Good?
    ensures PortsFit(f.proto, PortsOf(f.proto, rule.srcPort).value, PortsOf(f.proto, rule.dstPort).value, f)
            <==> if HasPorts(f.proto) then PortMatches(rule.srcPort, f.sport) && PortMatches(rule.dstPort, f.dport)
                 else f.dport == 0
  {
    NamedProtocol(rule.proto, f.proto);
    if Portless(f.proto) {
      assert [0 as u16][0] in [0 as u16];
    } else {
      PortSpecMeaning(rule.srcPort, f.sport);
      PortSpecMeaning(rule.dstPort, f.dport);
    }
  }

  /** One rule: its tuples let a flow through exactly when its header matches the flow or the reverse. */
  lemma ExpandMeaning(rule: ParsedRule, f: Flow)
    requires Expand(rule).Good?
    ensures PrefilterHit(Expand(rule).value, f)
            <==> HeaderMatches(rule, f) || HeaderMatches(rule, f.Reverse())
  {
    var proto := ProtoByte(rule.proto).value;
    var srcs, dsts := AddrSpecOf(rule.srcIp).value, AddrSpecOf(rule.dstIp).value;
    var sports, dports := PortsOf(proto, rule.srcPort).value, PortsOf(proto, rule.dstPort).value;
    var cs := Combos(proto, srcs, dsts, sports, dports);
    forall g: Flow | g == f || g == f.Reverse()
      ensures WellFormed(cs) && (AnyMatches(cs, g) <==> HeaderMatches(rule, g))
    {
      CombosMeaning(proto, srcs, dsts, sports, dports, g);
      AddrSpecMeaning(rule.srcIp, g.src);
      AddrSpecMeaning(rule.dstIp, g.dst);
      NamedProtocol(rule.proto, g.proto);
      if proto == g.proto { PortsFitMeaning(rule, g); }
    }
    CombosMeaning(proto, srcs, dsts, sports, dports, f);
    assert f.Reverse().Reverse() == f;
    PushAllMeaning(cs, f);
  }

  // ---------------------------------------------------------------- all rules

  lemma PlusHit(s: SuriTuples, t: SuriTuples, f: Flow)
    ensures RulesHit(s.Plus(t), f) <==> RulesHit(s, f) || RulesHit(t, f)
  {
    assert forall a: seq<LpmKey>, b: seq<LpmKey>, d :: LpmHit(a + b, d) <==> LpmHit(a, d) || LpmHit(b, d) by {
      forall a: seq<LpmKey>, b: seq<LpmKey>, d
        ensures LpmHit(a + b, d) <==> LpmHit(a, d) || LpmHit(b, d)
      {
        assert forall k :: k in a + b <==> k in a || k in b;
      }
    }
  }

  /** The rule contributes tuples, and its header matches the flow or the reverse. */
  ghost predicate RuleMatches(r: SuriRule, f: Flow) {
    r.Contributes() && (HeaderMatches(r.header, f) || HeaderMatches(r.header, f.Reverse()))
  }

  ghost predicate SomeRuleMatches(rules: seq<SuriRule>, f: Flow) {
    exists r | r in rules :: RuleMatches(r, f)
  }

  lemma SomeRuleSnoc(rules: seq<SuriRule>, r: SuriRule, f: Flow)
    ensures SomeRuleMatches(rules + [r], f) <==> SomeRuleMatches(rules, f) || RuleMatches(r, f)
  {
    assert r in rules + [r];
    assert forall x :: x in rules + [r] <==> x in rules || x == r;
  }

  lemma OneRuleMore(rules: seq<SuriRule>, r: SuriRule, f: Flow)
    ensures PrefilterHit(AllTuples(rules + [r]), f) <==> PrefilterHit(AllTuples(rules), f) || RuleMatches(r, f)
  {
    assert (rules + [r])[..|rules|] == rules;
    OneMoreRule(AllTuples(rules), r, f);
  }

  lemma NoRulesHit(f: Flow)
    ensures !PrefilterHit(AllTuples([]), f)
  {
  }

  /** Compilation preserves meaning: with the tables of any list of rules, the double lookup passes a
      flow exactly when some contributing rule's header matches the flow or its reverse. */
  lemma {:induction false} PrefilterMeaning(rules: seq<SuriRule>, f: Flow)
    ensures PrefilterHit(AllTuples(rules), f) <==> SomeRuleMatches(rules, f)
  {
    if rules == [] {
      NoRulesHit(f);
    } else {
      var front, r := rules[..|rules| - 1], rules[|rules| - 1];
      assert rules == front + [r];
      PrefilterMeaning(front, f);
      OneRuleMore(front, r, f);
      SomeRuleSnoc(front, r, f);
    }
  }

  lemma OneMoreRule(t: SuriTuples, r: SuriRule, f: Flow)
    ensures PrefilterHit(t.Plus(r.Tuples()), f)
            <==> PrefilterHit(t, f) || RuleMatches(r, f)
  {
    PlusHit(t, r.Tuples(), f);
    PlusHit(t, r.Tuples(), f.Reverse());
    if r.Contributes() { ExpandMeaning(r.header, f); }
  }

  // ---------------------------------------------------------------- which rules contribute

  /** A key can hold the combination this way round: its destination port is fixed, one of its networks is
      everything or a single address, and a fixed source port comes with single addresses, or with one and
      everything. */
  predicate Expressible(c: Combo) {
    var (s, d) := (c.src.1, c.dst.1);
    && c.dport.Some? && (s == 0 || s == 32 || d == 0 || d == 32)
    && (c.sport.Some? ==> (d == 32 && (s == 0 || s == 32)) || (s == 32 && d == 0))
  }

  lemma PushedIffExpressible(t: SuriTuples, c: Combo)
    requires c.src.1 <= 32 && c.dst.1 <= 32
    ensures PushOrientation(t, c).1 <==> Expressible(c)
  {
  }

  ghost predicate AllExpressible(cs: seq<Combo>) {
    forall c | c in cs :: Expressible(c) || Expressible(c.Swap())
  }

  lemma {:induction false} PushAllIff(cs: seq<Combo>)
    requires WellFormed(cs)
    ensures PushAll(cs).1 <==> AllExpressible(cs)
  {
    if cs != [] {
      var front, c := cs[..|cs| - 1], cs[|cs| - 1];
      assert cs == front + [c];
      assert forall x :: x in cs <==> x in front || x == c;
      PushAllIff(front);
      assert c.src.1 <= 32 && c.dst.1 <= 32;
      PushedIffExpressible(PushAll(front).0, c);
      PushedIffExpressible(PushOrientation(PushAll(front).0, c).0, c.Swap());
    }
  }

  /** An address field the prefilter can hold: no variable, negation or IPv6, and no prefix beyond 32. */
  predicate Holdable(spec: AddrSpec) {
    match spec
    case AnyAddr => true
    case Net(_, prefix) => prefix <= 32
    case AddrList(parts) => forall p | p in parts :: Holdable(p)
    case _ => false
  }

  /** A port field it can hold: no negation, and no range of more than 256 ports. */
  predicate HoldablePort(spec: PortSpec) {
    match spec
    case AnyPort => true
    case Port(_) => true
    case Range(lo, hi) => lo <= hi < lo + 256
    case PortList(parts) => forall p | p in parts :: HoldablePort(p)
    case _ => false
  }

  lemma {:induction false} AddrGoodIff(spec: AddrSpec)
    ensures AddrSpecOf(spec).Good? <==> Holdable(spec)
    decreases spec, 1
  {
    if spec.AddrList? { AddrsGoodIff(spec.parts); }
  }

  lemma {:induction false} AddrsGoodIff(parts: seq<AddrSpec>)
    ensures AddrSpecsOf(parts).Good? <==> forall p | p in parts :: Holdable(p)
    decreases parts, 0
  {
    if parts != [] {
      AddrGoodIff(parts[0]);
      AddrsGoodIff(parts[1..]);
      assert forall p :: p in parts <==> p == parts[0] || p in parts[1..];
    }
  }

  lemma {:induction false} PortGoodIff(spec: PortSpec)
    ensures PortSpecOf(spec).Good? <==> HoldablePort(spec)
    decreases spec, 1
  {
    if spec.PortList? { PortsGoodIff(spec.parts); }
  }

  lemma {:induction false} PortsGoodIff(parts: seq<PortSpec>)
    ensures PortSpecsOf(parts).Good? <==> forall p | p in parts :: HoldablePort(p)
    decreases parts, 0
  {
    if parts != [] {
      PortGoodIff(parts[0]);
      PortsGoodIff(parts[1..]);
      assert forall p :: p in parts <==> p == parts[0] || p in parts[1..];
    }
  }

  /** The fields of the header can be held. */
  predicate FieldsHoldable(rule: ParsedRule, proto: byte) {
    && Holdable(rule.srcIp) && Holdable(rule.dstIp)
    && (HasPorts(proto) ==> HoldablePort(rule.srcPort) && HoldablePort(rule.dstPort))
  }

  /** The combinations a header with such fields stands for. */
  function CombosOf(rule: ParsedRule, proto: byte): seq<Combo>
    requires AddrSpecOf(rule.srcIp).Good? && AddrSpecOf(rule.dstIp).Good?
    requires PortsOf(proto, rule.srcPort).Good? && PortsOf(proto, rule.dstPort).Good?
  {
    Combos(proto, AddrSpecOf(rule.srcIp).value, AddrSpecOf(rule.dstIp).value,
           PortsOf(proto, rule.srcPort).value, PortsOf(proto, rule.dstPort).value)
  }

  lemma FieldsGoodIff(rule: ParsedRule, proto: byte)
    requires Names(rule.proto, proto)
    ensures FieldsHoldable(rule, proto)
            <==> && AddrSpecOf(rule.srcIp).Good? && AddrSpecOf(rule.dstIp).Good?
                 && PortsOf(proto, rule.srcPort).Good? && PortsOf(proto, rule.dstPort).Good?
  {
    NamedProtocol(rule.proto, proto);
    AddrGoodIff(rule.srcIp);
    AddrGoodIff(rule.dstIp);
    PortGoodIff(rule.srcPort);
    PortGoodIff(rule.dstPort);
  }

  lemma {:induction false} CountForSport(proto: byte, src: Cidr, dst: Cidr, sport: u16, dports: seq<u16>)
    ensures |CombosForSport(proto, src, dst, sport, dports)| == |dports|
  {
    if dports != [] { CountForSport(proto, src, dst, sport, dports[..|dports| - 1]); }
  }

  lemma {:induction false} CountForDst(proto: byte, src: Cidr, dst: Cidr, sports: seq<u16>, dports: seq<u16>)
    ensures |CombosForDst(proto, src, dst, sports, dports)| == |sports| * |dports|
  {
    if sports != [] {
      CountForDst(proto, src, dst, sports[..|sports| - 1], dports);
      CountForSport(proto, src, dst, sports[|sports| - 1], dports);
      OneTimesMore(|sports|, |dports|);
    }
  }

  lemma OneTimesMore(a: nat, b: nat)
    requires a > 0
    ensures (a - 1) * b + b == a * b
  {
  }

  lemma {:induction false} CountForSrc(
    proto: byte, src: Cidr, dsts: seq<Cidr>, sports: seq<u16>, dports: seq<u16>)
    ensures |CombosForSrc(proto, src, dsts, sports, dports)| == |dsts| * (|sports| * |dports|)
  {
    if dsts != [] {
      CountForSrc(proto, src, dsts[..|dsts| - 1], sports, dports);
      CountForDst(proto, src, dsts[|dsts| - 1], sports, dports);
      OneTimesMore(|dsts|, |sports| * |dports|);
    }
  }

  lemma {:induction false} CountAll(
    proto: byte, srcs: seq<Cidr>, dsts: seq<Cidr>, sports: seq<u16>, dports: seq<u16>)
    ensures |Combos(proto, srcs, dsts, sports, dports)| == |srcs| * (|dsts| * (|sports| * |dports|))
  {
    if srcs != [] {
      CountAll(proto, srcs[..|srcs| - 1], dsts, sports, dports);
      CountForSrc(proto, srcs[|srcs| - 1], dsts, sports, dports);
      OneTimesMore(|srcs|, |dsts| * (|sports| * |dports|));
    }
  }

  lemma TimesInOrder(a: nat, b: nat, c: nat, d: nat)
    ensures a * b * c * d == a * (b * (c * d))
  {
    assert a * b * c == a * (b * c);
    assert a * (b * c) * d == a * (b * c * d);
    assert b * c * d == b * (c * d);
  }

  /** The header stands for at most 128 combinations, each of which some table can hold one way round. */
  ghost predicate Compilable(rule: ParsedRule, proto: byte)
    requires Names(rule.proto, proto) && FieldsHoldable(rule, proto)
  {
    FieldsGoodIff(rule, proto);
    |CombosOf(rule, proto)| <= 128 && AllExpressible(CombosOf(rule, proto))
  }

  /** Exactly which rules contribute: those enabled, that name a protocol other than ICMPv6, whose fields can be
      held, and that compile. */
  lemma ContributesIff(r: SuriRule)
    ensures r.Contributes()
            <==> exists proto: byte :: r.enabled && proto != 58 && Names(r.header.proto, proto)
                                       && FieldsHoldable(r.header, proto) && Compilable(r.header, proto)
  {
    var rule := r.header;
    if p :| p == ProtoByte(rule.proto) && p.Some? {
      NamedProtocol(rule.proto, p.value);
      OneName(rule.proto, p.value);
      FieldsGoodIff(rule, p.value);
      if FieldsHoldable(rule, p.value) { ExpandGoodIff(rule, p.value); }
    } else {
      forall proto: byte ensures !Names(rule.proto, proto) { NamedProtocol(rule.proto, proto); }
    }
  }

  lemma OneName(name: string, proto: byte)
    requires Names(name, proto)
    ensures forall other: byte | Names(name, other) :: other == proto
    ensures proto == 58 <==> name == "icmp6" || name == "icmpv6"
    ensures name != "ip6" && name != "ipv6"
  {
  }

  /** A header of a supported protocol with fields that expand compiles unless it is too many or one does not fit. */
  lemma ExpandOfFields(rule: ParsedRule, proto: byte)
    requires !(rule.proto in {"ip6", "ipv6", "icmp6", "icmpv6"}) && ProtoByte(rule.proto) == Some(proto)
    requires AddrSpecOf(rule.srcIp).Good? && AddrSpecOf(rule.dstIp).Good?
    requires PortsOf(proto, rule.srcPort).Good? && PortsOf(proto, rule.dstPort).Good?
    ensures Expand(rule).Good? <==> |CombosOf(rule, proto)| <= 128 && PushAll(CombosOf(rule, proto)).1
  {
    var srcs, dsts := AddrSpecOf(rule.srcIp).value, AddrSpecOf(rule.dstIp).value;
    var sports, dports := PortsOf(proto, rule.srcPort).value, PortsOf(proto, rule.dstPort).value;
    CountAll(proto, srcs, dsts, sports, dports);
    TimesInOrder(|srcs|, |dsts|, |sports|, |dports|);
  }

  lemma CombosWellFormed(rule: ParsedRule, proto: byte)
    requires AddrSpecOf(rule.srcIp).Good? && AddrSpecOf(rule.dstIp).Good?
    requires PortsOf(proto, rule.srcPort).Good? && PortsOf(proto, rule.dstPort).Good?
    ensures WellFormed(CombosOf(rule, proto))
  {
    CombosMeaning(proto, AddrSpecOf(rule.srcIp).value, AddrSpecOf(rule.dstIp).value,
                  PortsOf(proto, rule.srcPort).value, PortsOf(proto, rule.dstPort).value, Flow(proto, 0, 0, 0, 0));
  }

  lemma ExpandGoodIff(rule: ParsedRule, proto: byte)
    requires Names(rule.proto, proto) && FieldsHoldable(rule, proto)
    ensures Expand(rule).Good? <==> proto != 58 && Compilable(rule, proto)
  {
    NamedProtocol(rule.proto, proto);
    OneName(rule.proto, proto);
    FieldsGoodIff(rule, proto);
    if proto != 58 {
      ExpandOfFields(rule, proto);
      CombosWellFormed(rule, proto);
      PushAllIff(CombosOf(rule, proto));
    }
  }

  // ---------------------------------------------------------------- packets without ports

  /** A combination that fits a table has a port of its own, unless its protocol has none. */
  lemma {:induction false} ExpressibleNeedsPort(cs: seq<Combo>, c: Combo)
    requires PushAll(cs).1 && c in cs
    ensures c.sport.Some? || c.dport.Some?
  {
    var front, last := cs[..|cs| - 1], cs[|cs| - 1];
    assert cs == front + [last];
    if c in front { ExpressibleNeedsPort(front, c); }
  }

  /** The ports of a combination are never 0, unless its protocol has none. */
  predicate FixedPorts(cs: seq<Combo>) {
    forall c | c in cs :: c.sport != Some(0) && c.dport != Some(0)
  }

  lemma FixedAppend(a: seq<Combo>, b: seq<Combo>)
    requires FixedPorts(a) && FixedPorts(b)
    ensures FixedPorts(a + b)
  {
  }

  lemma {:induction false} CombosForSportFixed(proto: byte, src: Cidr, dst: Cidr, sport: u16, dports: seq<u16>)
    requires !Portless(proto)
    ensures FixedPorts(CombosForSport(proto, src, dst, sport, dports))
  {
    if dports != [] {
      CombosForSportFixed(proto, src, dst, sport, dports[..|dports| - 1]);
    }
  }

  lemma {:induction false} CombosForDstFixed(proto: byte, src: Cidr, dst: Cidr, sports: seq<u16>, dports: seq<u16>)
    requires !Portless(proto)
    ensures FixedPorts(CombosForDst(proto, src, dst, sports, dports))
  {
    if sports != [] {
      CombosForDstFixed(proto, src, dst, sports[..|sports| - 1], dports);
      CombosForSportFixed(proto, src, dst, sports[|sports| - 1], dports);
    }
  }

  lemma {:induction false} CombosForSrcFixed(
    proto: byte, src: Cidr, dsts: seq<Cidr>, sports: seq<u16>, dports: seq<u16>)
    requires !Portless(proto)
    ensures FixedPorts(CombosForSrc(proto, src, dsts, sports, dports))
  {
    if dsts != [] {
      CombosForSrcFixed(proto, src, dsts[..|dsts| - 1], sports, dports);
      CombosForDstFixed(proto, src, dsts[|dsts| - 1], sports, dports);
    }
  }

  lemma {:induction false} CombosFixed(
    proto: byte, srcs: seq<Cidr>, dsts: seq<Cidr>, sports: seq<u16>, dports: seq<u16>)
    requires !Portless(proto)
    ensures FixedPorts(Combos(proto, srcs, dsts, sports, dports))
  {
    if srcs != [] {
      CombosFixed(proto, srcs[..|srcs| - 1], dsts, sports, dports);
      CombosForSrcFixed(proto, srcs[|srcs| - 1], dsts, sports, dports);
    }
  }

  predicate ReadsNoPorts(f: Flow) {
    !Portless(f.proto) && f.sport == 0 && f.dport == 0
  }

  /** No contributing rule lets through a packet read with both ports 0 whose protocol the rules take to
      have ports. */
  lemma RuleMissesPortless(rule: ParsedRule, f: Flow)
    requires Expand(rule).Good? && ReadsNoPorts(f)
    ensures !PrefilterHit(Expand(rule).value, f)
  {
    var proto := ProtoByte(rule.proto).value;
    var srcs, dsts := AddrSpecOf(rule.srcIp).value, AddrSpecOf(rule.dstIp).value;
    var sports, dports := PortsOf(proto, rule.srcPort).value, PortsOf(proto, rule.dstPort).value;
    var cs := Combos(proto, srcs, dsts, sports, dports);
    CombosMeaning(proto, srcs, dsts, sports, dports, f);
    PushAllMeaning(cs, f);
    if proto == f.proto {
      CombosFixed(proto, srcs, dsts, sports, dports);
      forall c | c in cs ensures !ComboMatches(c, f) && !ComboMatches(c, f.Reverse()) {
        ExpressibleNeedsPort(cs, c);
      }
    } else {
      CombosMeaning(proto, srcs, dsts, sports, dports, f.Reverse());
    }
  }

  /** So once the prefilter is on, whatever the rules, new flows of such packets are dropped. SCTP is one such
      protocol: its ports are never read. */
  lemma {:induction false} PrefilterMissesPortless(rules: seq<SuriRule>, f: Flow)
    requires ReadsNoPorts(f)
    ensures !PrefilterHit(AllTuples(rules), f)
  {
    if rules != [] {
      var front, r := rules[..|rules| - 1], rules[|rules| - 1];
      PrefilterMissesPortless(front, f);
      PlusHit(AllTuples(front), r.Tuples(), f);
      PlusHit(AllTuples(front), r.Tuples(), f.Reverse());
      if r.Contributes() { RuleMissesPortless(r.header, f); }
    }
  }
}
