/** From the bytes of a frame to the fields the pipeline decides by, and back to the bytes it lets out. */
module Frames {
  import opened Types
  import opened Conntrack
  import opened Pipeline
  import opened ExtHeaders
  import Dscp

  const ETH_LEN := 14
  const VLAN_LEN := 4
  const IPV4_LEN := 20
  const IPV6_LEN := 40
  const ICMP6_LEN := 8

  const ETHER_IPV4: u16 := 0x0800
  const ETHER_IPV6: u16 := 0x86DD
  const ETHER_8021Q: u16 := 0x8100
  const ETHER_8021AD: u16 := 0x88A8

  // ---------------------------------------------------------------- reading

  /** The VLAN id, 0 without a tag, the type of what follows and where it starts. */
  datatype Link = Link(vlan: u16, etherType: u16, l3: nat)

  function ReadLink(pkt: seq<byte>): Option<Link> {
    if |pkt| < ETH_LEN then None
    else if U16At(pkt, 12) != ETHER_8021Q && U16At(pkt, 12) != ETHER_8021AD then Some(Link(0, U16At(pkt, 12), ETH_LEN))
    else if |pkt| < ETH_LEN + VLAN_LEN then None
    else Some(Link(U16At(pkt, 14) % 0x1000, U16At(pkt, 16), ETH_LEN + VLAN_LEN))
  }

  /** Ports 0 for a protocol that has none; `None` when they are cut off. */
  function PortsAt(pkt: seq<byte>, l4: nat, proto: byte): Option<(u16, u16)> {
    if proto != IPPROTO_TCP && proto != IPPROTO_UDP then Some((0, 0))
    else if l4 + 4 > |pkt| then None
    else Some((U16At(pkt, l4), U16At(pkt, l4 + 2)))
  }

  function TcpFlagsAt(pkt: seq<byte>, l4: nat): TcpFlags {
    if l4 + 13 >= |pkt| then NO_FLAGS
    else
      var b := pkt[l4 + 13];
      TcpFlags(b % 2 == 1, b / 2 % 2 == 1, b / 4 % 2 == 1, b / 0x10 % 2 == 1)
  }

  function Icmp6TypeAt(pkt: seq<byte>, l4: nat): Option<byte> {
    if l4 + ICMP6_LEN <= |pkt| then Some(pkt[l4]) else None
  }

  /** The two addresses of a packet. */
  datatype Ends = EndsV4(src: u32, dst: u32) | EndsV6(src6: Addr, dst6: Addr)

  function MakeHeader(
    ends: Ends, l4: L4, first: bool, ports: (u16, u16), flags: TcpFlags, icmp6: Option<byte>): Header
  {
    match ends
    case EndsV4(src, dst) =>
      Header(true, src, dst, UNSPECIFIED, UNSPECIFIED, l4.proto, ports.0, ports.1,
             l4.frag.fragmented, first, flags, icmp6)
    case EndsV6(src, dst) =>
      Header(false, 0, 0, src, dst, l4.proto, ports.0, ports.1, l4.frag.fragmented, first, flags, icmp6)
  }

  /** A later fragment has no ports to read. */
  function ReadL4(pkt: seq<byte>, ends: Ends, l4: L4, first: bool): Layer3 {
    var ports := if l4.frag.fragmented && l4.frag.offset != 0 then Some((0, 0)) else PortsAt(pkt, l4.off, l4.proto);
    if ports.None? then BadIp
    else Ip(MakeHeader(ends, l4, first, ports.value, TcpFlagsAt(pkt, l4.off), Icmp6TypeAt(pkt, l4.off)))
  }

  /** The flags and the offset in 8-byte units, bytes 6 and 7 of an IPv4 header. */
  function V4Fragment(field: u16): FragInfo {
    var offset, more := field % 0x2000, field / 0x2000 % 2 == 1;
    FragInfo(offset != 0 || more, offset, offset == 0 && more)
  }

  /** The length of an IPv4 header, in its first byte. */
  function V4Length(first: byte): nat {
    first % 0x10 * 4
  }

  function V4Ends(pkt: seq<byte>, l3: nat): Ends
    requires l3 + IPV4_LEN <= |pkt|
  {
    EndsV4(U32At(pkt, l3 + 12), U32At(pkt, l3 + 16))
  }

  function ReadV4(pkt: seq<byte>, l3: nat): Layer3 {
    if l3 + IPV4_LEN > |pkt| || V4Length(pkt[l3]) < IPV4_LEN then BadIp
    else
      ReadV4Payload(pkt, V4Ends(pkt, l3), pkt[l3 + 9], l3 + V4Length(pkt[l3]), V4Fragment(U16At(pkt, l3 + 6)))
  }

  function ReadV4Payload(pkt: seq<byte>, ends: Ends, proto: byte, l4: nat, frag: FragInfo): Layer3 {
    ReadL4(pkt, ends, L4(proto, l4, frag), frag.first)
  }

  function V6Ends(pkt: seq<byte>, l3: nat): Ends
    requires l3 + IPV6_LEN <= |pkt|
  {
    EndsV6(pkt[l3 + 8..l3 + 24], pkt[l3 + 24..l3 + 40])
  }

  function ReadV6(pkt: seq<byte>, l3: nat): Layer3 {
    if l3 + IPV6_LEN > |pkt| then BadIp
    else
      var chain := Walk(pkt, pkt[l3 + 6], l3 + IPV6_LEN, UNFRAGMENTED);
      if !Acceptable(chain) then BadIp else ReadL4(pkt, V6Ends(pkt, l3), chain.l4, chain.l4.frag.first)
  }

  function ReadLayer3(pkt: seq<byte>, link: Link): Layer3 {
    if link.etherType == ETHER_IPV4 then ReadV4(pkt, link.l3)
    else if link.etherType == ETHER_IPV6 then ReadV6(pkt, link.l3)
    else NonIp
  }

  /** `None`: too short for its link header. */
  function ReadFrame(ifindex: u32, pkt: seq<byte>): Option<Frame>
    requires |pkt| <= MAX_U32
  {
    var link := ReadLink(pkt);
    if link.None? then None else Some(Frame(ifindex, link.value.vlan, |pkt|, ReadLayer3(pkt, link.value)))
  }

  /** The parsing part of `try_k_firewall`. */
  method ParseFrame(ifindex: u32, pkt: seq<byte>) returns (f: Option<Frame>)
    requires |pkt| <= MAX_U32
    ensures f == ReadFrame(ifindex, pkt)
  {
    if ETH_LEN > |pkt| { return None; }
    var vlan: u16, l3: nat := 0, ETH_LEN;
    var etherType := U16At(pkt, 12);
    if etherType == ETHER_8021Q || etherType == ETHER_8021AD {
      if l3 + VLAN_LEN > |pkt| { return None; }
      vlan, etherType := U16At(pkt, 14) % 0x1000, U16At(pkt, 16);
      l3 := l3 + VLAN_LEN;
    }
    var layer3 := NonIp;
    if etherType == ETHER_IPV4 {
      layer3 := ReadV4(pkt, l3);
    } else if etherType == ETHER_IPV6 {
      layer3 := ParseV6(pkt, l3);
    }
    f := Some(Frame(ifindex, vlan, |pkt|, layer3));
  }

  method ParseV6(pkt: seq<byte>, l3: nat) returns (r: Layer3)
    ensures r == ReadV6(pkt, l3)
  {
    if l3 + IPV6_LEN > |pkt| { return BadIp; }
    var l4 := WalkBounded(pkt, pkt[l3 + 6], l3 + IPV6_LEN);
    if l4.None? { return BadIp; }
    r := ReadL4(pkt, V6Ends(pkt, l3), l4.value, l4.value.frag.first);
  }

  // ---------------------------------------------------------------- outbound

  /** What `kfw_tc_egress` reads: no extension headers, no length check on the IPv4 header, and ports 0 where
      they are cut off. */
  function ReadEgress(pkt: seq<byte>): Option<Header> {
    var link := ReadLink(pkt);
    if link.None? then None
    else
      var l3 := link.value.l3;
      if link.value.etherType == ETHER_IPV4 && l3 + IPV4_LEN <= |pkt| then
        Some(EgressHeader(pkt, V4Ends(pkt, l3), pkt[l3 + 9], l3 + V4Length(pkt[l3])))
      else if link.value.etherType == ETHER_IPV6 && l3 + IPV6_LEN <= |pkt| then
        Some(EgressHeader(pkt, V6Ends(pkt, l3), pkt[l3 + 6], l3 + IPV6_LEN))
      else None
  }

  function EgressHeader(pkt: seq<byte>, ends: Ends, proto: byte, l4: nat): Header {
    var ports := PortsAt(pkt, l4, proto);
    MakeHeader(ends, L4(proto, l4, UNFRAGMENTED), false, if ports.Some? then ports.value else (0, 0), NO_FLAGS, None)
  }

  /** The bytes where the outbound side looks for ports are absent, or are zero, or there is no need of ports. */
  predicate NoPortBytes(pkt: seq<byte>, l4: nat, proto: byte) {
    var ports := PortsAt(pkt, l4, proto);
    ports.None? || ports == Some((0, 0))
  }

  /** Of a packet that the inbound side can read, the two directions see the same flow exactly when: over IPv4
      it is not a later fragment, or the payload bytes it would take for ports do not count; over IPv6 it has
      no extension headers, fragment headers included. */
  predicate DirectionsAgree(pkt: seq<byte>)
    requires ReadLink(pkt).Some? && ReadLayer3(pkt, ReadLink(pkt).value).Ip?
  {
    var l3 := ReadLink(pkt).value.l3;
    if ReadLayer3(pkt, ReadLink(pkt).value).h.isV4 then
      U16At(pkt, l3 + 6) % 0x2000 == 0 || NoPortBytes(pkt, l3 + V4Length(pkt[l3]), pkt[l3 + 9])
    else !IsExtension(pkt[l3 + 6])
  }

  lemma EgressAgreesIff(pkt: seq<byte>)
    requires ReadLink(pkt).Some? && ReadLayer3(pkt, ReadLink(pkt).value).Ip?
    ensures ReadEgress(pkt).Some?
    ensures ReadEgress(pkt).value.FlowKey() == ReadLayer3(pkt, ReadLink(pkt).value).h.FlowKey()
            <==> DirectionsAgree(pkt)
  {
    var link := ReadLink(pkt).value;
    if link.etherType == ETHER_IPV4 { EgressV4(pkt, link.l3); } else { EgressV6(pkt, link.l3); }
  }

  lemma EgressV4(pkt: seq<byte>, l3: nat)
    requires ReadV4(pkt, l3).Ip?
    ensures var l4 := l3 + V4Length(pkt[l3]);
            EgressHeader(pkt, V4Ends(pkt, l3), pkt[l3 + 9], l4).FlowKey() == ReadV4(pkt, l3).h.FlowKey()
            <==> U16At(pkt, l3 + 6) % 0x2000 == 0 || NoPortBytes(pkt, l4, pkt[l3 + 9])
    ensures ReadV4(pkt, l3).h.isV4
  {
  }

  lemma EgressV6(pkt: seq<byte>, l3: nat)
    requires ReadV6(pkt, l3).Ip?
    ensures EgressHeader(pkt, V6Ends(pkt, l3), pkt[l3 + 6], l3 + IPV6_LEN).FlowKey() == ReadV6(pkt, l3).h.FlowKey()
            <==> !IsExtension(pkt[l3 + 6])
    ensures !ReadV6(pkt, l3).h.isV4
  {
    if IsExtension(pkt[l3 + 6]) { EndsInUpperLayer(pkt, pkt[l3 + 6], l3 + IPV6_LEN, UNFRAGMENTED); }
  }

  // ---------------------------------------------------------------- what can be read

  /** The ports, where the protocol has any, are in the packet. */
  predicate PortsThere(pkt: seq<byte>, l4: nat, proto: byte) {
    (proto == 6 || proto == 17) ==> l4 + 4 <= |pkt|
  }

  /** Which frames have a link header, by the EtherType of their first fourteen bytes. */
  lemma LinkIff(pkt: seq<byte>)
    ensures ReadLink(pkt).Some? <==>
              && |pkt| >= 14
              && (U16At(pkt, 12) == 0x8100 || U16At(pkt, 12) == 0x88A8 ==> |pkt| >= 18)
  {
  }

  /** Which IPv4 packets can be read: those with a header of at least twenty bytes, as it says itself, and with
      their ports, if they are no later fragment. */
  lemma V4ReadableIff(pkt: seq<byte>, l3: nat)
    ensures ReadV4(pkt, l3).Ip? <==>
              && l3 + 20 <= |pkt| && pkt[l3] % 0x10 >= 5
              && (U16At(pkt, l3 + 6) % 0x2000 == 0 ==> PortsThere(pkt, l3 + pkt[l3] % 0x10 * 4, pkt[l3 + 9]))
  {
  }

  /** Which IPv6 packets can be read: those whose chain ends within five headers and offset 128, and with their
      ports, if they are no later fragment; and which of them show an ICMPv6 type: those with eight bytes. */
  lemma V6ReadableIff(pkt: seq<byte>, l3: nat)
    ensures ReadV6(pkt, l3).Ip? <==>
              && l3 + 40 <= |pkt|
              && var c := Walk(pkt, pkt[l3 + 6], l3 + 40, UNFRAGMENTED);
              && c.Ends? && c.headers <= 5 && (c.headers > 0 ==> c.l4.off <= 128)
              && (c.l4.frag.offset == 0 ==> PortsThere(pkt, c.l4.off, c.l4.proto))
    ensures ReadV6(pkt, l3).Ip? ==>
              (ReadV6(pkt, l3).h.icmp6Type.Some? <==>
               Walk(pkt, pkt[l3 + 6], l3 + 40, UNFRAGMENTED).l4.off + 8 <= |pkt|)
  {
    if l3 + 40 <= |pkt| && Walk(pkt, pkt[l3 + 6], l3 + 40, UNFRAGMENTED).Ends? {
      ReadsOffsets(pkt, pkt[l3 + 6], l3 + 40, UNFRAGMENTED);
    }
  }

  /** Outbound, every packet with a whole IPv4 or IPv6 header can be read, and ports that are cut off are 0. */
  lemma OutboundReadableIff(pkt: seq<byte>)
    ensures ReadEgress(pkt).Some? <==>
              && ReadLink(pkt).Some?
              && var link := ReadLink(pkt).value;
              || (link.etherType == 0x0800 && link.l3 + 20 <= |pkt|)
              || (link.etherType == 0x86DD && link.l3 + 40 <= |pkt|)
    ensures ReadEgress(pkt).Some? ==>
              var (h, l3) := (ReadEgress(pkt).value, ReadLink(pkt).value.l3);
              var l4 := if h.isV4 then l3 + pkt[l3] % 0x10 * 4 else l3 + 40;
              !PortsThere(pkt, l4, h.proto) ==> h.srcPort == 0 && h.dstPort == 0
  {
  }

  // ---------------------------------------------------------------- marking

  /** The bytes let out: the DSCP mark written into the IP header. */
  function MarkedFrame(pkt: seq<byte>, mark: Option<byte>): (m: seq<byte>)
    ensures |m| == |pkt|
  {
    var link := ReadLink(pkt);
    if mark.None? || link.None? then pkt
    else if link.value.etherType == ETHER_IPV4 then Dscp.MarkedV4Frame(pkt, link.value.l3, mark.value)
    else if link.value.etherType == ETHER_IPV6 then Dscp.MarkedV6Frame(pkt, link.value.l3, mark.value)
    else pkt
  }

  /** Bytes outside the type of service and the checksum stay. */
  lemma MarkedV4Bytes(pkt: seq<byte>, l3: nat, dscp: byte)
    ensures var m := Dscp.MarkedV4Frame(pkt, l3, dscp);
            forall i | 0 <= i < |pkt| && i != l3 + 1 && i != l3 + 10 && i != l3 + 11 :: m[i] == pkt[i]
  {
    var m := Dscp.MarkedV4Frame(pkt, l3, dscp);
    if l3 + 12 <= |pkt| {
      forall i | 0 <= i < |pkt| && i != l3 + 1 && i != l3 + 10 && i != l3 + 11 ensures m[i] == pkt[i] {
        if i >= l3 {
          Dscp.MarkedBytes(pkt[l3..], dscp, i - l3);
          assert m[i] == Dscp.Marked(pkt[l3..], dscp)[i - l3];
        }
      }
    }
  }

  /** Reading past the link header depends only on the bytes read. */
  lemma ReadL4Same(pkt: seq<byte>, m: seq<byte>, ends: Ends, l4: L4, first: bool)
    requires |m| == |pkt| && forall i | l4.off <= i < |pkt| :: m[i] == pkt[i]
    ensures ReadL4(m, ends, l4, first) == ReadL4(pkt, ends, l4, first)
  {
  }

  /** Nor does reading an IPv4 packet depend on the bytes that a mark changes. */
  lemma ReadV4Alike(pkt: seq<byte>, m: seq<byte>, l3: nat)
    requires |m| == |pkt|
    requires forall i | 0 <= i < |pkt| && i != l3 + 1 && i != l3 + 10 && i != l3 + 11 :: m[i] == pkt[i]
    ensures ReadV4(m, l3) == ReadV4(pkt, l3)
  {
    if l3 + IPV4_LEN <= |pkt| {
      SameV4Fields(pkt, m, l3);
      if V4Length(pkt[l3]) >= IPV4_LEN {
        var l4, frag := l3 + V4Length(pkt[l3]), V4Fragment(U16At(pkt, l3 + 6));
        ReadL4Same(pkt, m, V4Ends(pkt, l3), L4(pkt[l3 + 9], l4, frag), frag.first);
      }
    }
  }

  lemma SameV4Fields(pkt: seq<byte>, m: seq<byte>, l3: nat)
    requires |m| == |pkt| && l3 + IPV4_LEN <= |pkt|
    requires forall i | 0 <= i < |pkt| && i != l3 + 1 && i != l3 + 10 && i != l3 + 11 :: m[i] == pkt[i]
    ensures m[l3] == pkt[l3] && m[l3 + 9] == pkt[l3 + 9]
    ensures U16At(m, l3 + 6) == U16At(pkt, l3 + 6) && V4Ends(m, l3) == V4Ends(pkt, l3)
  {
  }

  lemma ReadV4Same(pkt: seq<byte>, l3: nat, dscp: byte)
    ensures ReadV4(Dscp.MarkedV4Frame(pkt, l3, dscp), l3) == ReadV4(pkt, l3)
  {
    MarkedV4Bytes(pkt, l3, dscp);
    ReadV4Alike(pkt, Dscp.MarkedV4Frame(pkt, l3, dscp), l3);
  }

  lemma {:induction false} WalkSame(pkt: seq<byte>, m: seq<byte>, proto: byte, off: nat, frag: FragInfo)
    requires |m| == |pkt| && forall i | off <= i < |pkt| :: m[i] == pkt[i]
    ensures Walk(m, proto, off, frag) == Walk(pkt, proto, off, frag)
    decreases |pkt| - off
  {
    if IsExtension(proto) && off + BytesRead(proto) <= |pkt| {
      assert SeeHeader(m, proto, off, frag) == SeeHeader(pkt, proto, off, frag);
      WalkSame(pkt, m, pkt[off], off + HeaderLength(pkt, proto, off), SeeHeader(pkt, proto, off, frag));
    }
  }

  lemma ReadV6Same(pkt: seq<byte>, l3: nat, dscp: byte)
    ensures ReadV6(Dscp.MarkedV6Frame(pkt, l3, dscp), l3) == ReadV6(pkt, l3)
  {
    var m := Dscp.MarkedV6Frame(pkt, l3, dscp);
    if l3 + IPV6_LEN <= |pkt| {
      assert m[l3 + 8..l3 + 24] == pkt[l3 + 8..l3 + 24] && m[l3 + 24..l3 + 40] == pkt[l3 + 24..l3 + 40];
      WalkSame(pkt, m, pkt[l3 + 6], l3 + IPV6_LEN, UNFRAGMENTED);
      var chain := Walk(pkt, pkt[l3 + 6], l3 + IPV6_LEN, UNFRAGMENTED);
      if Acceptable(chain) {
        WalkForward(pkt, pkt[l3 + 6], l3 + IPV6_LEN, UNFRAGMENTED);
        ReadL4Same(pkt, m, V6Ends(pkt, l3), chain.l4, chain.l4.frag.first);
      }
    }
  }

  lemma LinkSame(pkt: seq<byte>, m: seq<byte>)
    requires |m| == |pkt| && ReadLink(pkt).Some?
    requires forall i | 0 <= i < ReadLink(pkt).value.l3 && i < |pkt| :: m[i] == pkt[i]
    ensures ReadLink(m) == ReadLink(pkt)
  {
  }

  /** Marking is invisible to the pipeline: a marked frame reads as the same frame. So it makes no difference
      that the connection tracker reads the TCP flags after QoS has written its mark. */
  lemma MarkInvisible(ifindex: u32, pkt: seq<byte>, mark: Option<byte>)
    requires |pkt| <= MAX_U32
    ensures ReadFrame(ifindex, MarkedFrame(pkt, mark)) == ReadFrame(ifindex, pkt)
  {
    var link, m := ReadLink(pkt), MarkedFrame(pkt, mark);
    if mark.Some? && link.Some? {
      MarkedV4Bytes(pkt, link.value.l3, mark.value);
      LinkSame(pkt, m);
      ReadV4Same(pkt, link.value.l3, mark.value);
      ReadV6Same(pkt, link.value.l3, mark.value);
    }
  }

  /** And the mark is there: in the type of service of an IPv4 packet, whose ECN bits stay, or the traffic class
      of an IPv6 packet. Other frames, frames cut off before it, and frames without a mark, go out as they came. */
  lemma MarkWritten(pkt: seq<byte>, mark: Option<byte>)
    ensures mark.None? || ReadLink(pkt).None? ==> MarkedFrame(pkt, mark) == pkt
    ensures mark.Some? && ReadLink(pkt).Some? ==>
              var link, m := ReadLink(pkt).value, MarkedFrame(pkt, mark);
              && (link.etherType == 0x0800 && link.l3 + 12 <= |pkt| ==>
                    m[link.l3 + 1] / 4 == mark.value % 64 && m[link.l3 + 1] % 4 == pkt[link.l3 + 1] % 4)
              && (link.etherType == 0x86DD && link.l3 + 2 <= |pkt| ==>
                    m[link.l3] % 0x10 * 4 + m[link.l3 + 1] / 0x40 == mark.value % 64)
              && (link.etherType == 0x0800 && link.l3 + 12 > |pkt| ==> m == pkt)
              && (link.etherType == 0x86DD && link.l3 + 2 > |pkt| ==> m == pkt)
              && (link.etherType != 0x0800 && link.etherType != 0x86DD ==> m == pkt)
  {
    if mark.Some? && ReadLink(pkt).Some? {
      MarkWrittenV4(pkt, ReadLink(pkt).value.l3, mark.value);
      MarkWrittenV6(pkt, ReadLink(pkt).value.l3, mark.value);
    }
  }

  lemma MarkWrittenV4(pkt: seq<byte>, l3: nat, dscp: byte)
    ensures l3 + 12 <= |pkt| ==>
              var m := Dscp.MarkedV4Frame(pkt, l3, dscp);
              m[l3 + 1] / 4 == dscp % 64 && m[l3 + 1] % 4 == pkt[l3 + 1] % 4
  {
    if l3 + 12 <= |pkt| { Dscp.MarkedTos(pkt[l3..], dscp); }
  }

  lemma MarkWrittenV6(pkt: seq<byte>, l3: nat, dscp: byte)
    ensures l3 + 2 <= |pkt| ==>
              var m := Dscp.MarkedV6Frame(pkt, l3, dscp);
              m[l3] % 0x10 * 4 + m[l3 + 1] / 0x40 == dscp % 64
  {
    if l3 + 2 <= |pkt| {
      Dscp.MarkV6Fields(pkt[l3], pkt[l3 + 1], dscp);
      Dscp.MarkedV6Bytes(pkt, l3, dscp);
    }
  }

  /** The IPv4 header of a frame, as long as its first byte says. */
  function V4Header(pkt: seq<byte>, l3: nat): seq<byte>
    requires l3 + IPV4_LEN <= |pkt|
  {
    V4Slice(pkt, l3, V4Length(pkt[l3]))
  }

  function V4Slice(pkt: seq<byte>, l3: nat, len: nat): seq<byte>
    requires l3 <= |pkt|
  {
    if l3 + len <= |pkt| then pkt[l3..l3 + len] else pkt[l3..]
  }

  /** The IPv4 header that goes out is the marked header of the one that came in. */
  lemma MarkedHeader(pkt: seq<byte>, l3: nat, dscp: byte)
    requires l3 + IPV4_LEN <= |pkt| && Dscp.Ipv4Header(V4Header(pkt, l3))
    ensures V4Header(Dscp.MarkedV4Frame(pkt, l3, dscp), l3) == Dscp.Marked(V4Header(pkt, l3), dscp)
  {
    MarkedV4Bytes(pkt, l3, dscp);
    assert Dscp.MarkedV4Frame(pkt, l3, dscp)[l3] == pkt[l3];
    MarkedSlice(pkt, l3, V4Length(pkt[l3]), dscp);
  }

  /** The IPv4 header of the packet is whole, and its checksum is right. */
  predicate ValidHeader(pkt: seq<byte>, l3: nat) {
    && l3 + IPV4_LEN <= |pkt| && Dscp.Ipv4Header(V4Header(pkt, l3)) && Dscp.ValidChecksum(V4Header(pkt, l3))
  }

  /** So it is valid if the one that came in was. */
  lemma MarkedFrameKeepsChecksum(pkt: seq<byte>, l3: nat, dscp: byte)
    requires ValidHeader(pkt, l3)
    ensures ValidHeader(Dscp.MarkedV4Frame(pkt, l3, dscp), l3)
  {
    MarkedHeader(pkt, l3, dscp);
    Dscp.MarkKeepsChecksum(V4Header(pkt, l3), dscp);
  }

  /** The mark goes to the same bytes of the header as of the rest of the frame. */
  lemma MarkedSlice(pkt: seq<byte>, l3: nat, len: nat, dscp: byte)
    requires l3 + 12 <= |pkt| && len >= 12
    ensures V4Slice(Dscp.MarkedV4Frame(pkt, l3, dscp), l3, len) == Dscp.Marked(V4Slice(pkt, l3, len), dscp)
  {
  }
}
