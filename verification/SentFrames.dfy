/** What a sender writes is what is read: IPv4 (section 3.1 of RFC 791) and IPv6 (section 3 of RFC 8200) with
    its extension headers, TCP (section 3.1 of RFC 9293), UDP and ICMPv6, from the first byte of the frame. */
module SentFrames {
  import opened Types
  import opened Bytes
  import opened Conntrack
  import opened Pipeline
  import opened ExtHeaders
  import opened Frames

  // ---------------------------------------------------------------- segments

  /** A payload. Of TCP, `middle` is the sequence and acknowledgement numbers and the data offset; PSH and the
      bits above ACK are carried but not read. */
  datatype Segment =
    | Tcp(sport: u16, dport: u16, middle: seq<byte>, flags: TcpFlags, psh: bool, high: byte, tail: seq<byte>)
    | Udp(sport: u16, dport: u16, tail: seq<byte>)
    | Icmp6(kind: byte, tail: seq<byte>)
    | Other(proto: byte, tail: seq<byte>)
  {
    predicate Valid() {
      match this
      case Tcp(_, _, middle, _, _, high, _) => |middle| == 9 && high < 8
      case Udp(_, _, _) => true
      case Icmp6(_, tail) => |tail| >= 7
      case Other(p, _) => !IsExtension(p) && p != 6 && p != 17 && p != 58
    }

    function Proto(): byte {
      match this
      case Tcp(_, _, _, _, _, _, _) => 6
      case Udp(_, _, _) => 17
      case Icmp6(_, _) => 58
      case Other(p, _) => p
    }

    function Ports(): (u16, u16) {
      match this
      case Tcp(s, d, _, _, _, _, _) => (s, d)
      case Udp(s, d, _) => (s, d)
      case _ => (0, 0)
    }
  }

  function Bit(b: bool): nat {
    if b then 1 else 0
  }

  function FlagsByte(fl: TcpFlags, psh: bool, high: byte): byte
    requires high < 8
  {
    var low: int, top: int := Bit(fl.fin) + 2 * Bit(fl.syn) + 4 * Bit(fl.rst) + 8 * Bit(psh) + 16 * Bit(fl.ack), high;
    low + 32 * top
  }

  function SegmentBytes(seg: Segment): seq<byte>
    requires seg.Valid()
  {
    match seg
    case Tcp(s, d, middle, fl, psh, high, tail) =>
      BytesOfU16(s) + BytesOfU16(d) + middle + [FlagsByte(fl, psh, high)] + tail
    case Udp(s, d, tail) => BytesOfU16(s) + BytesOfU16(d) + tail
    case Icmp6(kind, tail) => [kind] + tail
    case Other(_, tail) => tail
  }

  lemma FlagsReadBack(fl: TcpFlags, psh: bool, high: byte)
    requires high < 8
    ensures var b := FlagsByte(fl, psh, high);
            fl == TcpFlags(b % 2 == 1, b / 2 % 2 == 1, b / 4 % 2 == 1, b / 0x10 % 2 == 1)
  {
    var high': int := high;
    var b16 := Bit(fl.ack) + 2 * high';
    var b4 := Bit(fl.rst) + 2 * Bit(psh) + 4 * b16;
    var b: int := FlagsByte(fl, psh, high);
    assert b == Bit(fl.fin) + 2 * Bit(fl.syn) + 4 * b4;
    assert b / 4 == b4 && b / 0x10 == b16 && b / 2 == Bit(fl.syn) + 2 * b4;
  }

  lemma PortsReadBack(pkt: seq<byte>, l4: nat, seg: Segment)
    requires seg.Valid() && l4 <= |pkt| && pkt[l4..] == SegmentBytes(seg)
    ensures PortsAt(pkt, l4, seg.Proto()) == Some(seg.Ports())
  {
    if seg.Tcp? || seg.Udp? {
      var b := SegmentBytes(seg);
      assert b[0..2] == BytesOfU16(seg.sport) && b[2..4] == BytesOfU16(seg.dport);
      assert pkt[l4..l4 + 2] == b[0..2] && pkt[l4 + 2..l4 + 4] == b[2..4];
      U16Here(pkt, l4, seg.sport);
      U16Here(pkt, l4 + 2, seg.dport);
    }
  }

  lemma SegmentReadsBack(pkt: seq<byte>, l4: nat, seg: Segment)
    requires seg.Valid() && l4 <= |pkt| && pkt[l4..] == SegmentBytes(seg)
    ensures PortsAt(pkt, l4, seg.Proto()) == Some(seg.Ports())
    ensures seg.Tcp? ==> TcpFlagsAt(pkt, l4) == seg.flags
    ensures seg.Icmp6? ==> Icmp6TypeAt(pkt, l4) == Some(seg.kind)
  {
    PortsReadBack(pkt, l4, seg);
    var b := SegmentBytes(seg);
    if seg.Tcp? {
      assert pkt[l4 + 13] == b[13] == FlagsByte(seg.flags, seg.psh, seg.high);
      FlagsReadBack(seg.flags, seg.psh, seg.high);
    } else if seg.Icmp6? {
      assert pkt[l4] == b[0];
    }
  }

  /** The header read says what was sent: protocol, ports unless it is a later fragment, fragment flags, the TCP
      flags of TCP and the type of ICMPv6. */
  predicate Carries(h: Header, seg: Segment, frag: FragInfo) {
    && h.proto == seg.Proto()
    && (h.srcPort, h.dstPort) == (if frag.fragmented && frag.offset != 0 then (0, 0) else seg.Ports())
    && h.fragmented == frag.fragmented && h.firstFragment == frag.first
    && (seg.Tcp? ==> h.tcp == seg.flags) && (seg.Icmp6? ==> h.icmp6Type == Some(seg.kind))
  }

  lemma L4ReadsBack(pkt: seq<byte>, ends: Ends, l4: nat, seg: Segment, frag: FragInfo)
    requires seg.Valid() && l4 <= |pkt| && pkt[l4..] == SegmentBytes(seg)
    ensures var r := ReadL4(pkt, ends, L4(seg.Proto(), l4, frag), frag.first);
            r.Ip? && Carries(r.h, seg, frag) && Between(r.h, ends)
  {
    SegmentReadsBack(pkt, l4, seg);
  }

  /** The header read has these ends. */
  predicate Between(h: Header, ends: Ends) {
    match ends
    case EndsV4(src, dst) => h.isV4 && h.srcIp == src && h.dstIp == dst
    case EndsV6(src, dst) => !h.isV4 && h.srcIp6 == src && h.dstIp6 == dst
  }

  // ---------------------------------------------------------------- IPv4

  /** The fixed fields of an IPv4 header besides its length, addresses and protocol. */
  datatype V4Fields = V4Fields(tos: byte, total: u16, id: u16, frag: u16, ttl: byte, checksum: u16)

  function V4Front(v: V4Fields, words: nat, proto: byte): (b: seq<byte>)
    requires words < 0x10
    ensures |b| == 12
  {
    [0x40 + words, v.tos] + BytesOfU16(v.total) + BytesOfU16(v.id) + BytesOfU16(v.frag) + [v.ttl, proto]
    + BytesOfU16(v.checksum)
  }

  function V4Bytes(v: V4Fields, proto: byte, src: u32, dst: u32, options: seq<byte>): (b: seq<byte>)
    requires |options| % 4 == 0 && |options| <= 40
    ensures |b| == IPV4_LEN + |options|
  {
    V4Front(v, 5 + |options| / 4, proto) + BytesOfU32(src) + BytesOfU32(dst) + options
  }

  /** The fragment field: a later fragment has an offset, a first one has none and more to come. */
  function SentFragment(v: V4Fields): FragInfo {
    var more, offset := v.frag / 0x2000 % 2 == 1, v.frag % 0x2000;
    FragInfo(more || offset > 0, offset, more && offset == 0)
  }

  lemma LengthOfWords(n: nat)
    requires n % 4 == 0 && n <= 40
    ensures V4Length(0x40 + (5 + n / 4)) == IPV4_LEN + n
  {
    var words := n / 4;
    assert (0x40 + (5 + words)) % 0x10 == 5 + words;
  }

  lemma V4FixedFields(v: V4Fields, proto: byte, src: u32, dst: u32, options: seq<byte>)
    requires |options| % 4 == 0 && |options| <= 40
    ensures var ip := V4Bytes(v, proto, src, dst, options);
            && V4Length(ip[0]) == |ip| && ip[9] == proto && U16At(ip, 6) == v.frag
            && U32At(ip, 12) == src && U32At(ip, 16) == dst
  {
    var ip, front := V4Bytes(v, proto, src, dst, options), V4Front(v, 5 + |options| / 4, proto);
    assert forall i | 0 <= i < 12 :: ip[i] == front[i];
    LengthOfWords(|options|);
    assert ip[6..8] == BytesOfU16(v.frag);
    U16Here(ip, 6, v.frag);
    assert ip[12..16] == BytesOfU32(src) && ip[16..20] == BytesOfU32(dst);
    U32Here(ip, 12, src);
    U32Here(ip, 16, dst);
  }

  lemma FieldsInPlace(head: seq<byte>, ip: seq<byte>, rest: seq<byte>)
    requires |ip| >= IPV4_LEN
    ensures var pkt, l3 := head + ip + rest, |head|;
            && pkt[l3] == ip[0] && pkt[l3 + 9] == ip[9] && U16At(pkt, l3 + 6) == U16At(ip, 6)
            && U32At(pkt, l3 + 12) == U32At(ip, 12) && U32At(pkt, l3 + 16) == U32At(ip, 16)
  {
    var pkt := head + ip + rest;
    assert forall i | 0 <= i < IPV4_LEN :: pkt[|head| + i] == ip[i];
  }

  /** What an IPv4 sender writes is what is read, wherever the header starts. */
  lemma V4ReadsBack(head: seq<byte>, v: V4Fields, src: u32, dst: u32, options: seq<byte>, seg: Segment)
    requires |options| % 4 == 0 && |options| <= 40 && seg.Valid()
    ensures var r := ReadV4(head + V4Bytes(v, seg.Proto(), src, dst, options) + SegmentBytes(seg), |head|);
            r.Ip? && Carries(r.h, seg, SentFragment(v)) && Between(r.h, EndsV4(src, dst))
  {
    var ip := V4Bytes(v, seg.Proto(), src, dst, options);
    var pkt, l4 := head + ip + SegmentBytes(seg), |head| + |ip|;
    V4FixedFields(v, seg.Proto(), src, dst, options);
    FieldsInPlace(head, ip, SegmentBytes(seg));
    assert pkt[l4..] == SegmentBytes(seg);
    L4ReadsBack(pkt, EndsV4(src, dst), l4, seg, SentFragment(v));
    V4IsL4(pkt, |head|, v.frag);
    assert V4Fragment(v.frag) == SentFragment(v);
  }

  lemma V4IsL4(pkt: seq<byte>, l3: nat, field: u16)
    requires l3 + IPV4_LEN <= |pkt| && V4Length(pkt[l3]) >= IPV4_LEN && U16At(pkt, l3 + 6) == field
    ensures var frag := V4Fragment(field);
            ReadV4(pkt, l3) == ReadL4(pkt, V4Ends(pkt, l3), L4(pkt[l3 + 9], l3 + V4Length(pkt[l3]), frag), frag.first)
  {
  }

  // ---------------------------------------------------------------- IPv6

  /** Version, class and flow label, payload length and hop limit. */
  datatype V6Fields = V6Fields(word: u32, length: u16, hops: byte)

  function V6Bytes(v: V6Fields, next: byte, src: Addr, dst: Addr): (b: seq<byte>)
    ensures |b| == IPV6_LEN
  {
    BytesOfU32(v.word) + BytesOfU16(v.length) + [next, v.hops] + src + dst
  }

  /** An extension header: options or routing, whose length byte counts units of eight bytes past the first
      eight; a fragment header, whose field has the offset in its upper thirteen bits; or AH, whose length byte
      counts units of four past the first eight (section 2.2 of RFC 4302). `body` is what follows the next
      header and the length byte. */
  datatype ExtHeader =
    | Options(kind: byte, units: byte, body: seq<byte>)
    | Fragment(reserved: byte, field: u16, id: u32)
    | Auth(units: byte, body: seq<byte>)
  {
    predicate Valid() {
      match this
      case Options(kind, units, body) => (kind == 0 || kind == 43 || kind == 60) && 2 + |body| == 8 + 8 * units
      case Fragment(_, _, _) => true
      case Auth(units, body) => 2 + |body| == 8 + 4 * units
    }

    function Kind(): byte {
      match this
      case Options(kind, _, _) => kind
      case Fragment(_, _, _) => 44
      case Auth(_, _) => 51
    }
  }

  type Ext = e: ExtHeader | e.Valid() witness Fragment(0, 0, 0)

  function ExtBytes(e: Ext, next: byte): (b: seq<byte>)
    ensures |b| >= 8
  {
    match e
    case Options(_, units, body) => [next, units] + body
    case Fragment(reserved, field, id) => [next, reserved] + BytesOfU16(field) + BytesOfU32(id)
    case Auth(units, body) => [next, units] + body
  }

  function FirstOf(exts: seq<Ext>, last: byte): byte {
    if exts == [] then last else exts[0].Kind()
  }

  /** The headers of a chain, each naming the next. */
  function Headers(exts: seq<Ext>, last: byte): (bs: seq<seq<byte>>)
    ensures |bs| == |exts|
  {
    if exts == [] then [] else [ExtBytes(exts[0], FirstOf(exts[1..], last))] + Headers(exts[1..], last)
  }

  function Joined(bs: seq<seq<byte>>): seq<byte> {
    if bs == [] then [] else bs[0] + Joined(bs[1..])
  }

  function ChainBytes(exts: seq<Ext>, last: byte): seq<byte> {
    Joined(Headers(exts, last))
  }

  /** What a chain says of fragments: the last offset, and whether any was 0. */
  function SentInfo(exts: seq<Ext>, frag: FragInfo): FragInfo {
    if exts == [] then frag
    else if exts[0].Fragment? then
      SentInfo(exts[1..], FragInfo(true, exts[0].field / 8, frag.first || exts[0].field / 8 == 0))
    else SentInfo(exts[1..], frag)
  }

  /** The bytes stand in the packet at an offset. */
  predicate At(pkt: seq<byte>, off: nat, b: seq<byte>) {
    off + |b| <= |pkt| && pkt[off..off + |b|] == b
  }

  lemma ByteAt(pkt: seq<byte>, off: nat, b: seq<byte>, i: nat)
    requires At(pkt, off, b) && i < |b|
    ensures pkt[off + i] == b[i]
  {
    assert pkt[off + i] == pkt[off..off + |b|][i];
  }

  lemma SliceAt(pkt: seq<byte>, off: nat, b: seq<byte>, i: nat, j: nat)
    requires At(pkt, off, b) && i <= j <= |b|
    ensures At(pkt, off + i, b[i..j])
  {
    forall k | 0 <= k < j - i ensures pkt[off + i..off + j][k] == b[i..j][k] { ByteAt(pkt, off, b, i + k); }
    assert pkt[off + i..off + i + |b[i..j]|] == b[i..j];
  }

  lemma PartsAt(pkt: seq<byte>, off: nat, w: seq<byte>, a: seq<byte>, b: seq<byte>)
    requires w == a + b && At(pkt, off, w)
    ensures At(pkt, off, a) && At(pkt, off + |a|, b) && |w| == |a| + |b|
  {
    SliceAt(pkt, off, w, 0, |a|);
    SliceAt(pkt, off, w, |a|, |w|);
    assert w[0..|a|] == a && w[|a|..|w|] == b;
  }

  lemma ExtLength(pkt: seq<byte>, off: nat, e: Ext, next: byte)
    requires At(pkt, off, ExtBytes(e, next))
    ensures IsExtension(e.Kind()) && off + BytesRead(e.Kind()) <= |pkt| && pkt[off] == next
    ensures HeaderLength(pkt, e.Kind(), off) == |ExtBytes(e, next)|
  {
    var b := ExtBytes(e, next);
    ByteAt(pkt, off, b, 0);
    ByteAt(pkt, off, b, 1);
  }

  lemma ExtFragment(pkt: seq<byte>, off: nat, e: Ext, next: byte, frag: FragInfo)
    requires At(pkt, off, ExtBytes(e, next))
    ensures off + BytesRead(e.Kind()) <= |pkt| && SeeHeader(pkt, e.Kind(), off, frag) == SentInfo([e], frag)
  {
    assert [e][1..] == [];
    if e.Fragment? {
      var b, field := ExtBytes(e, next), e.field;
      SliceAt(pkt, off, b, 2, 4);
      assert b[2..4] == BytesOfU16(field);
      U16Here(pkt, off + 2, field);
    }
  }

  /** The walk goes over one header as it was written. */
  lemma OneHeader(pkt: seq<byte>, off: nat, e: Ext, next: byte, frag: FragInfo, l4: L4, n: nat)
    requires At(pkt, off, ExtBytes(e, next))
    requires Walk(pkt, next, off + |ExtBytes(e, next)|, SentInfo([e], frag)) == Ends(l4, n)
    ensures Walk(pkt, e.Kind(), off, frag) == Ends(l4, n + 1)
  {
    ExtLength(pkt, off, e, next);
    ExtFragment(pkt, off, e, next, frag);
    WalkOver(pkt, e.Kind(), off, frag, next, |ExtBytes(e, next)|, SentInfo([e], frag), l4, n);
  }

  lemma WalkOver(
    pkt: seq<byte>, proto: byte, off: nat, frag: FragInfo, next: byte, len: nat, info: FragInfo, l4: L4, n: nat)
    requires IsExtension(proto) && off + BytesRead(proto) <= |pkt| && pkt[off] == next
    requires HeaderLength(pkt, proto, off) == len && SeeHeader(pkt, proto, off, frag) == info
    requires Walk(pkt, next, off + len, info) == Ends(l4, n)
    ensures Walk(pkt, proto, off, frag) == Ends(l4, n + 1)
  {
  }

  lemma InfoOfFirst(exts: seq<Ext>, frag: FragInfo)
    requires exts != []
    ensures SentInfo(exts, frag) == SentInfo(exts[1..], SentInfo([exts[0]], frag))
  {
    assert [exts[0]][1..] == [];
  }

  /** Some strings of bytes stand one after the other, from `off` to `end`. */
  predicate Stand(pkt: seq<byte>, off: nat, bs: seq<seq<byte>>, end: nat)
    decreases |bs|
  {
    if bs == [] then off == end else At(pkt, off, bs[0]) && Stand(pkt, off + |bs[0]|, bs[1..], end)
  }

  lemma {:induction false} JoinedStand(pkt: seq<byte>, off: nat, bs: seq<seq<byte>>)
    requires At(pkt, off, Joined(bs))
    ensures Stand(pkt, off, bs, off + |Joined(bs)|)
    decreases |bs|
  {
    if bs != [] {
      PartsAt(pkt, off, Joined(bs), bs[0], Joined(bs[1..]));
      JoinedStand(pkt, off + |bs[0]|, bs[1..]);
    }
  }

  lemma HeadersCons(exts: seq<Ext>, last: byte)
    requires exts != []
    ensures var bs := Headers(exts, last);
            bs[0] == ExtBytes(exts[0], FirstOf(exts[1..], last)) && bs[1..] == Headers(exts[1..], last)
  {
  }

  /** The walk over a chain as it was written ends after its last header, with what it said of fragments. */
  lemma {:induction false} ChainReadsBack(
    pkt: seq<byte>, off: nat, exts: seq<Ext>, last: byte, frag: FragInfo, end: nat)
    requires !IsExtension(last) && Stand(pkt, off, Headers(exts, last), end)
    ensures Walk(pkt, FirstOf(exts, last), off, frag) == Ends(L4(last, end, SentInfo(exts, frag)), |exts|)
    decreases |exts|
  {
    if exts != [] {
      var e, rest, next := exts[0], exts[1..], FirstOf(exts[1..], last);
      HeadersCons(exts, last);
      InfoOfFirst(exts, frag);
      ChainReadsBack(pkt, off + |ExtBytes(e, next)|, rest, last, SentInfo([e], frag), end);
      OneHeader(pkt, off, e, next, frag, L4(last, end, SentInfo(exts, frag)), |rest|);
    }
  }

  lemma V6FixedFields(pkt: seq<byte>, l3: nat, v: V6Fields, next: byte, src: Addr, dst: Addr)
    requires At(pkt, l3, V6Bytes(v, next, src, dst))
    ensures pkt[l3 + 6] == next && V6Ends(pkt, l3) == EndsV6(src, dst)
  {
    var ip := V6Bytes(v, next, src, dst);
    assert ip[6] == next && ip[8..24] == src && ip[24..40] == dst;
    ByteAt(pkt, l3, ip, 6);
    SliceAt(pkt, l3, ip, 8, 24);
    SliceAt(pkt, l3, ip, 24, 40);
  }

  function V6Packet(v: V6Fields, src: Addr, dst: Addr, exts: seq<Ext>, seg: Segment): seq<byte>
    requires seg.Valid()
  {
    V6Bytes(v, FirstOf(exts, seg.Proto()), src, dst) + ChainBytes(exts, seg.Proto()) + SegmentBytes(seg)
  }

  /** Where the payload of a packet begins. */
  function EndOf(l3: nat, exts: seq<Ext>, last: byte): nat {
    l3 + 40 + |ChainBytes(exts, last)|
  }

  /** The header, the chain and the payload stand in the packet from `l3` on, the payload at `end`. */
  predicate Laid(pkt: seq<byte>, l3: nat, v: V6Fields, src: Addr, dst: Addr, exts: seq<Ext>, seg: Segment, end: nat)
    requires seg.Valid()
  {
    && At(pkt, l3, V6Bytes(v, FirstOf(exts, seg.Proto()), src, dst))
    && Stand(pkt, l3 + 40, Headers(exts, seg.Proto()), end)
    && l3 + 40 <= end <= |pkt| && pkt[end..] == SegmentBytes(seg)
  }

  /** What is read of it: what was sent, for a chain of at most five headers that ends at offset 128 at most,
      and nothing for any other. */
  predicate ReadAsSent(r: Layer3, src: Addr, dst: Addr, exts: seq<Ext>, seg: Segment, end: nat)
    requires seg.Valid()
  {
    if |exts| <= 5 && (exts == [] || end <= 128) then
      r.Ip? && Carries(r.h, seg, SentInfo(exts, UNFRAGMENTED)) && Between(r.h, EndsV6(src, dst))
    else r.BadIp?
  }

  lemma LaidReadsBack(
    pkt: seq<byte>, l3: nat, v: V6Fields, src: Addr, dst: Addr, exts: seq<Ext>, seg: Segment, end: nat)
    requires seg.Valid() && Laid(pkt, l3, v, src, dst, exts, seg, end)
    ensures ReadAsSent(ReadV6(pkt, l3), src, dst, exts, seg, end)
  {
    V6FixedFields(pkt, l3, v, FirstOf(exts, seg.Proto()), src, dst);
    ChainReadsBack(pkt, l3 + 40, exts, seg.Proto(), UNFRAGMENTED, end);
    V6AsSent(pkt, l3, src, dst, seg, L4(seg.Proto(), end, SentInfo(exts, UNFRAGMENTED)), |exts|);
  }

  /** What an IPv6 sender writes is what is read, wherever the header starts. */
  lemma V6ReadsBack(head: seq<byte>, v: V6Fields, src: Addr, dst: Addr, exts: seq<Ext>, seg: Segment)
    requires seg.Valid()
    ensures var end := EndOf(|head|, exts, seg.Proto());
            ReadAsSent(ReadV6(head + V6Packet(v, src, dst, exts, seg), |head|), src, dst, exts, seg, end)
  {
    var end := EndOf(|head|, exts, seg.Proto());
    V6Laid(head, v, src, dst, exts, seg);
    LaidReadsBack(head + V6Packet(v, src, dst, exts, seg), |head|, v, src, dst, exts, seg, end);
  }

  lemma V6AsSent(pkt: seq<byte>, l3: nat, src: Addr, dst: Addr, seg: Segment, l4: L4, headers: nat)
    requires seg.Valid() && l3 + 40 <= l4.off <= |pkt| && pkt[l4.off..] == SegmentBytes(seg)
    requires l4.proto == seg.Proto() && V6Ends(pkt, l3) == EndsV6(src, dst)
    requires Walk(pkt, pkt[l3 + 6], l3 + 40, UNFRAGMENTED) == Ends(l4, headers)
    ensures var r := ReadV6(pkt, l3);
            if headers <= 5 && (headers == 0 || l4.off <= 128) then
              r.Ip? && Carries(r.h, seg, l4.frag) && Between(r.h, EndsV6(src, dst))
            else r.BadIp?
  {
    L4ReadsBack(pkt, EndsV6(src, dst), l4.off, seg, l4.frag);
    V6IsL4(pkt, l3, l4, headers);
  }

  lemma V6Laid(head: seq<byte>, v: V6Fields, src: Addr, dst: Addr, exts: seq<Ext>, seg: Segment)
    requires seg.Valid()
    ensures Laid(head + V6Packet(v, src, dst, exts, seg), |head|, v, src, dst, exts, seg,
                 EndOf(|head|, exts, seg.Proto()))
  {
    var ip, chain := V6Bytes(v, FirstOf(exts, seg.Proto()), src, dst), ChainBytes(exts, seg.Proto());
    ThreeParts(head, ip, chain, SegmentBytes(seg));
    JoinedStand(head + (ip + chain + SegmentBytes(seg)), |head| + 40, Headers(exts, seg.Proto()));
  }

  lemma ThreeParts(head: seq<byte>, a: seq<byte>, b: seq<byte>, c: seq<byte>)
    ensures var pkt := head + (a + b + c);
            && At(pkt, |head|, a) && At(pkt, |head| + |a|, b)
            && |head| + |a| + |b| <= |pkt| && pkt[|head| + |a| + |b|..] == c
  {
  }

  lemma V6IsL4(pkt: seq<byte>, l3: nat, l4: L4, headers: nat)
    requires l3 + 40 <= |pkt| && Walk(pkt, pkt[l3 + 6], l3 + 40, UNFRAGMENTED) == Ends(l4, headers)
    ensures ReadV6(pkt, l3) == if headers <= 5 && (headers == 0 || l4.off <= 128)
                               then ReadL4(pkt, V6Ends(pkt, l3), l4, l4.frag.first) else BadIp
  {
  }

  // ---------------------------------------------------------------- whole frames

  /** Two hardware addresses, a tag of either kind if there is one, and the type. */
  function LinkBytes(macs: seq<byte>, tag: Option<(u16, u16)>, etherType: u16): (b: seq<byte>)
    requires |macs| == 12
    ensures |b| == if tag.Some? then ETH_LEN + VLAN_LEN else ETH_LEN
  {
    macs + (if tag.Some? then BytesOfU16(tag.value.0) + BytesOfU16(tag.value.1) else []) + BytesOfU16(etherType)
  }

  predicate TagOk(tag: Option<(u16, u16)>, etherType: u16) {
    && (tag.Some? ==> tag.value.0 == 0x8100 || tag.value.0 == 0x88A8)
    && (tag.None? ==> etherType != 0x8100 && etherType != 0x88A8)
  }

  /** The VLAN id is the low twelve bits of a tag. */
  function VlanOf(tag: Option<(u16, u16)>): u16 {
    if tag.Some? then tag.value.1 % 0x1000 else 0
  }

  lemma LinkReadsBack(macs: seq<byte>, tag: Option<(u16, u16)>, etherType: u16, rest: seq<byte>)
    requires |macs| == 12 && TagOk(tag, etherType)
    ensures ReadLink(LinkBytes(macs, tag, etherType) + rest)
            == Some(Link(VlanOf(tag), etherType, |LinkBytes(macs, tag, etherType)|))
  {
    var pkt := LinkBytes(macs, tag, etherType) + rest;
    if tag.Some? {
      assert pkt[12..14] == BytesOfU16(tag.value.0) && pkt[14..16] == BytesOfU16(tag.value.1);
      assert pkt[16..18] == BytesOfU16(etherType);
      U16Here(pkt, 12, tag.value.0);
      U16Here(pkt, 14, tag.value.1);
      U16Here(pkt, 16, etherType);
    } else {
      assert pkt[12..14] == BytesOfU16(etherType);
      U16Here(pkt, 12, etherType);
    }
  }

  lemma FrameIsLayer3(ifindex: u32, pkt: seq<byte>, link: Link)
    requires |pkt| <= MAX_U32 && ReadLink(pkt) == Some(link)
    ensures ReadFrame(ifindex, pkt) == Some(Frame(ifindex, link.vlan, |pkt|, ReadLayer3(pkt, link)))
  {
  }

  /** An IPv4 frame reads back from its first byte. */
  lemma V4FrameReadsBack(ifindex: u32, macs: seq<byte>, tag: Option<(u16, u16)>, v: V4Fields, src: u32, dst: u32,
                         options: seq<byte>, seg: Segment)
    requires |macs| == 12 && TagOk(tag, 0x0800) && |options| % 4 == 0 && |options| <= 40
    requires seg.Valid() && |SegmentBytes(seg)| <= 0x1_0000
    ensures var pkt := LinkBytes(macs, tag, 0x0800) + V4Bytes(v, seg.Proto(), src, dst, options) + SegmentBytes(seg);
            var f := ReadFrame(ifindex, pkt);
            && f.Some? && f.value.ifindex == ifindex && f.value.vlan == VlanOf(tag) && f.value.len == |pkt|
            && f.value.l3.Ip? && Carries(f.value.l3.h, seg, SentFragment(v))
            && Between(f.value.l3.h, EndsV4(src, dst))
  {
    var head, ip := LinkBytes(macs, tag, 0x0800), V4Bytes(v, seg.Proto(), src, dst, options);
    var pkt := head + ip + SegmentBytes(seg);
    assert pkt == head + (ip + SegmentBytes(seg));
    LinkReadsBack(macs, tag, 0x0800, ip + SegmentBytes(seg));
    FrameIsLayer3(ifindex, pkt, Link(VlanOf(tag), 0x0800, |head|));
    V4ReadsBack(head, v, src, dst, options, seg);
  }

  /** And so does an IPv6 frame. */
  lemma V6FrameReadsBack(ifindex: u32, macs: seq<byte>, tag: Option<(u16, u16)>, v: V6Fields, src: Addr, dst: Addr,
                         exts: seq<Ext>, seg: Segment)
    requires |macs| == 12 && TagOk(tag, 0x86DD) && seg.Valid()
    requires |V6Packet(v, src, dst, exts, seg)| <= 0x2_0000
    ensures var head := LinkBytes(macs, tag, 0x86DD);
            var pkt := head + V6Packet(v, src, dst, exts, seg);
            var f := ReadFrame(ifindex, pkt);
            && f.Some? && f.value.ifindex == ifindex && f.value.vlan == VlanOf(tag) && f.value.len == |pkt|
            && ReadAsSent(f.value.l3, src, dst, exts, seg, EndOf(|head|, exts, seg.Proto()))
  {
    var head := LinkBytes(macs, tag, 0x86DD);
    var pkt := head + V6Packet(v, src, dst, exts, seg);
    LinkReadsBack(macs, tag, 0x86DD, V6Packet(v, src, dst, exts, seg));
    FrameIsLayer3(ifindex, pkt, Link(VlanOf(tag), 0x86DD, |head|));
    V6ReadsBack(head, v, src, dst, exts, seg);
  }

  // ---------------------------------------------------------------- outbound

  /** An outbound packet without extension headers, and no later fragment, is seen with the flow it was sent with. */
  lemma OutboundReadsBack(macs: seq<byte>, tag: Option<(u16, u16)>, v4: V4Fields, src4: u32, dst4: u32,
                          options: seq<byte>, v6: V6Fields, src6: Addr, dst6: Addr, seg: Segment)
    requires |macs| == 12 && TagOk(tag, 0x0800) && TagOk(tag, 0x86DD) && |options| % 4 == 0 && |options| <= 40
    requires seg.Valid() && |SegmentBytes(seg)| <= 0x1_0000
    ensures var pkt := LinkBytes(macs, tag, 0x0800) + V4Bytes(v4, seg.Proto(), src4, dst4, options) + SegmentBytes(seg);
            v4.frag % 0x2000 == 0 ==>
              ReadEgress(pkt).Some? && ReadEgress(pkt).value.FlowKey()
                                       == FiveTupleV4(src4, dst4, seg.Proto(), seg.Ports().0, seg.Ports().1)
    ensures var pkt := LinkBytes(macs, tag, 0x86DD) + V6Packet(v6, src6, dst6, [], seg);
            ReadEgress(pkt).Some? && ReadEgress(pkt).value.FlowKey()
                                     == FiveTupleV6(src6, dst6, seg.Proto(), seg.Ports().0, seg.Ports().1)
  {
    OutboundV4(macs, tag, v4, src4, dst4, options, seg);
    OutboundV6(macs, tag, v6, src6, dst6, seg);
  }

  lemma OutboundV4(macs: seq<byte>, tag: Option<(u16, u16)>, v: V4Fields, src: u32, dst: u32,
                   options: seq<byte>, seg: Segment)
    requires |macs| == 12 && TagOk(tag, 0x0800) && |options| % 4 == 0 && |options| <= 40
    requires seg.Valid() && |SegmentBytes(seg)| <= 0x1_0000
    ensures var pkt := LinkBytes(macs, tag, 0x0800) + V4Bytes(v, seg.Proto(), src, dst, options) + SegmentBytes(seg);
            v.frag % 0x2000 == 0 ==>
              ReadEgress(pkt).Some? && ReadEgress(pkt).value.FlowKey()
                                       == FiveTupleV4(src, dst, seg.Proto(), seg.Ports().0, seg.Ports().1)
  {
    var head, ip := LinkBytes(macs, tag, 0x0800), V4Bytes(v, seg.Proto(), src, dst, options);
    var pkt := head + ip + SegmentBytes(seg);
    assert pkt == head + (ip + SegmentBytes(seg));
    LinkReadsBack(macs, tag, 0x0800, ip + SegmentBytes(seg));
    V4ReadsBack(head, v, src, dst, options, seg);
    V4FixedFields(v, seg.Proto(), src, dst, options);
    FieldsInPlace(head, ip, SegmentBytes(seg));
    if v.frag % 0x2000 == 0 { OutboundV4Flow(pkt, Link(VlanOf(tag), 0x0800, |head|), v, src, dst, seg); }
  }

  lemma OutboundV4Flow(pkt: seq<byte>, link: Link, v: V4Fields, src: u32, dst: u32, seg: Segment)
    requires ReadLink(pkt) == Some(link) && link.etherType == 0x0800 && seg.Valid()
    requires ReadV4(pkt, link.l3).Ip? && U16At(pkt, link.l3 + 6) % 0x2000 == 0 && SentFragment(v).offset == 0
    requires Carries(ReadV4(pkt, link.l3).h, seg, SentFragment(v)) && Between(ReadV4(pkt, link.l3).h, EndsV4(src, dst))
    ensures ReadEgress(pkt).Some? && ReadEgress(pkt).value.FlowKey()
                                     == FiveTupleV4(src, dst, seg.Proto(), seg.Ports().0, seg.Ports().1)
  {
    EgressAgreesIff(pkt);
  }

  lemma OutboundV6(macs: seq<byte>, tag: Option<(u16, u16)>, v: V6Fields, src: Addr, dst: Addr, seg: Segment)
    requires |macs| == 12 && TagOk(tag, 0x86DD) && seg.Valid() && |SegmentBytes(seg)| <= 0x1_0000
    ensures var pkt := LinkBytes(macs, tag, 0x86DD) + V6Packet(v, src, dst, [], seg);
            ReadEgress(pkt).Some? && ReadEgress(pkt).value.FlowKey()
                                     == FiveTupleV6(src, dst, seg.Proto(), seg.Ports().0, seg.Ports().1)
  {
    var head := LinkBytes(macs, tag, 0x86DD);
    var pkt := head + V6Packet(v, src, dst, [], seg);
    LinkReadsBack(macs, tag, 0x86DD, V6Packet(v, src, dst, [], seg));
    V6Laid(head, v, src, dst, [], seg);
    assert EndOf(|head|, [], seg.Proto()) == |head| + 40;
    PlainReadsBack(pkt, |head|, v, src, dst, seg);
    OutboundV6Flow(pkt, Link(VlanOf(tag), 0x86DD, |head|), src, dst, seg);
  }

  lemma PlainReadsBack(pkt: seq<byte>, l3: nat, v: V6Fields, src: Addr, dst: Addr, seg: Segment)
    requires seg.Valid() && Laid(pkt, l3, v, src, dst, [], seg, l3 + 40)
    ensures ReadV6(pkt, l3).Ip? && pkt[l3 + 6] == seg.Proto()
    ensures Carries(ReadV6(pkt, l3).h, seg, UNFRAGMENTED) && Between(ReadV6(pkt, l3).h, EndsV6(src, dst))
  {
    LaidReadsBack(pkt, l3, v, src, dst, [], seg, l3 + 40);
    V6FixedFields(pkt, l3, v, seg.Proto(), src, dst);
  }

  lemma OutboundV6Flow(pkt: seq<byte>, link: Link, src: Addr, dst: Addr, seg: Segment)
    requires ReadLink(pkt) == Some(link) && link.etherType == 0x86DD && seg.Valid()
    requires ReadV6(pkt, link.l3).Ip? && !IsExtension(pkt[link.l3 + 6])
    requires Carries(ReadV6(pkt, link.l3).h, seg, UNFRAGMENTED) && Between(ReadV6(pkt, link.l3).h, EndsV6(src, dst))
    ensures ReadEgress(pkt).Some? && ReadEgress(pkt).value.FlowKey()
                                     == FiveTupleV6(src, dst, seg.Proto(), seg.Ports().0, seg.Ports().1)
  {
    EgressAgreesIff(pkt);
  }
}
