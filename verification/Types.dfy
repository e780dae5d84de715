/** Map keys, map values and constants shared by the data plane and the daemon.
    Padding fields, which the source always writes as zero, are dropped. */
module Types {

  type byte = x: int | 0 <= x < 0x100
  type u16 = x: int | 0 <= x < 0x1_0000
  type u32 = x: int | 0 <= x < 0x1_0000_0000
  type u64 = x: int | 0 <= x < 0x1_0000_0000_0000_0000

  const TWO_16 := 0x1_0000
  const TWO_32 := 0x1_0000_0000
  const TWO_64 := 0x1_0000_0000_0000_0000

  const MAX_U32: u32 := 0xFFFF_FFFF
  const MAX_U64: u64 := 0xFFFF_FFFF_FFFF_FFFF

  datatype Option<+T> = None | Some(value: T)

  const NANOS_PER_SEC := 1_000_000_000

  const FAMILY_IPV4: byte := 4
  const FAMILY_IPV6: byte := 6

  const IPPROTO_ICMP: byte := 1
  const IPPROTO_TCP: byte := 6
  const IPPROTO_UDP: byte := 17
  const IPPROTO_ICMPV6: byte := 58

  const ACTION_DROP: byte := 0
  const ACTION_PASS: byte := 1

  const ROLE_LAN: byte := 1

  const FRAG_POLICY_DROP: byte := 1
  const FRAG_POLICY_INSPECT: byte := 2

  const ICMPV6_RA: byte := 134
  const ICMPV6_REDIRECT: byte := 137

  function Min(a: int, b: int): int {
    if a < b then a else b
  }

  function Max(a: int, b: int): int {
    if a < b then b else a
  }

  function SaturatingAdd32(a: u32, b: u32): u32 {
    Min(a + b, MAX_U32)
  }

  function SaturatingAdd64(a: u64, b: u64): u64 {
    Min(a + b, MAX_U64)
  }

  /** Big-endian bytes of a 16-bit word. */
  function BytesOfU16(x: u16): (b: seq<byte>)
    ensures |b| == 2
  {
    [x / 0x100, x % 0x100]
  }

  /** Big-endian bytes of a 32-bit word. */
  function BytesOfU32(x: u32): (b: seq<byte>)
    ensures |b| == 4
  {
    [x / 0x100_0000, x / 0x1_0000 % 0x100, x / 0x100 % 0x100, x % 0x100]
  }

  /** The word at an index of a byte string in network order. */
  function U16At(s: seq<byte>, i: nat): u16
    requires i + 2 <= |s|
  {
    var hi: int, lo: int := s[i], s[i + 1];
    hi * 0x100 + lo
  }

  function U32At(s: seq<byte>, i: nat): u32
    requires i + 4 <= |s|
  {
    var hi: int, lo: int := U16At(s, i), U16At(s, i + 2);
    hi * 0x1_0000 + lo
  }

  /** 16 address bytes; IPv4 uses the first four and leaves the rest zero. */
  type Addr = a: seq<byte> | |a| == 16 witness [0, 0, 0, 0, 0, 0, 0, 0, 0, 0, 0, 0, 0, 0, 0, 0]

  /** The address `::`. */
  const UNSPECIFIED: Addr := [0, 0, 0, 0, 0, 0, 0, 0, 0, 0, 0, 0, 0, 0, 0, 0]

  const ZEROS_12: seq<byte> := [0, 0, 0, 0, 0, 0, 0, 0, 0, 0, 0, 0]

  function AddrV4(a: u32): Addr {
    BytesOfU32(a) + ZEROS_12
  }

  datatype IpKey = IpKey(family: byte, ip: Addr)

  function IpKeyV4(a: u32): IpKey {
    IpKey(FAMILY_IPV4, AddrV4(a))
  }

  function IpKeyV6(a: Addr): IpKey {
    IpKey(FAMILY_IPV6, a)
  }

  /** Identifies a fragmented flow; ports are unreadable past the first fragment. */
  datatype FragKey = FragKey(family: byte, proto: byte, srcIp: Addr, dstIp: Addr)

  datatype FiveTuple = FiveTuple(
    family: byte, proto: byte, srcIp: Addr, dstIp: Addr, srcPort: u16, dstPort: u16)
  {
    /** The key of a packet travelling the other way. */
    function Reverse(): FiveTuple {
      FiveTuple(family, proto, dstIp, srcIp, dstPort, srcPort)
    }

    /** The key under which the per-source tables account for this flow. */
    function Source(): IpKey {
      IpKey(family, srcIp)
    }
  }

  function FiveTupleV4(src: u32, dst: u32, proto: byte, srcPort: u16, dstPort: u16): FiveTuple {
    FiveTuple(FAMILY_IPV4, proto, AddrV4(src), AddrV4(dst), srcPort, dstPort)
  }

  function FiveTupleV6(src: Addr, dst: Addr, proto: byte, srcPort: u16, dstPort: u16): FiveTuple {
    FiveTuple(FAMILY_IPV6, proto, src, dst, srcPort, dstPort)
  }

  /** The nine conntrack states, in the order of their `CT_TIMEOUTS` slots. */
  datatype CtState =
    | SynSent | SynRecv | Established | FinWait | CloseWait | TimeWait | Udp | Icmp | Generic
  {
    function Slot(): (i: nat)
      ensures i < CT_STATE_MAX
    {
      match this
      case SynSent => 0
      case SynRecv => 1
      case Established => 2
      case FinWait => 3
      case CloseWait => 4
      case TimeWait => 5
      case Udp => 6
      case Icmp => 7
      case Generic => 8
    }

    predicate HalfOpen() {
      SynSent? || SynRecv?
    }
  }

  const CT_STATE_MAX := 9

  /** A conntrack entry. The two bits of the source's `counted` byte are two booleans. */
  datatype CtValue = CtValue(
    state: CtState, isNat: bool, hasFragments: bool, countedConn: bool, countedSyn: bool,
    lastSeen: u64, packets: u32, pktsOrig: u32, pktsRepl: u32, bytesOrig: u64, bytesRepl: u64)

  function NewCtValue(state: CtState, now: u64, len: u32): CtValue {
    CtValue(state, false, false, false, false, now, 0, 1, 0, len, 0)
  }

  /** The reply entry injected by TC egress and by DNAT. */
  function NatReply(now: u64): CtValue {
    CtValue(Established, true, false, true, false, now, 0, 0, 0, 0, 0)
  }

  type CtTable = map<FiveTuple, CtValue>
  type Timeouts = t: seq<u32> | |t| == CT_STATE_MAX witness [0, 0, 0, 0, 0, 0, 0, 0, 0]
}
