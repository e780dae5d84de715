/** The bounded walk over IPv6 extension headers, and the chain of RFC 8200 section 4 it follows. */
module ExtHeaders {
  import opened Types

  const HOPOPTS: byte := 0
  const ROUTING: byte := 43
  const FRAGMENT: byte := 44
  const AH: byte := 51
  const DSTOPTS: byte := 60

  const MAX_HEADERS := 5
  const MAX_L4_OFF := 128

  predicate IsExtension(proto: byte) {
    proto in {HOPOPTS, ROUTING, DSTOPTS, FRAGMENT, AH}
  }

  /** Bytes of a header that the walk reads. */
  function BytesRead(proto: byte): nat {
    if proto == FRAGMENT then 4 else 2
  }

  /** The length of the extension header at `off`: 8-octet units for options and routing, a fixed 8 for
      a fragment header, 4-octet units for AH (section 2.2 of RFC 4302). */
  function HeaderLength(pkt: seq<byte>, proto: byte, off: nat): nat
    requires off + 2 <= |pkt|
  {
    var units: int := pkt[off + 1];
    if proto == FRAGMENT then 8
    else if proto == AH then (units + 2) * 4
    else (units + 1) * 8
  }

  /** What the fragment headers of a chain say: any seen, the offset in the last one, and whether one
      of them had offset 0. */
  datatype FragInfo = FragInfo(fragmented: bool, offset: nat, first: bool)

  const UNFRAGMENTED := FragInfo(false, 0, false)

  function FragOffset(pkt: seq<byte>, off: nat): nat
    requires off + 4 <= |pkt|
  {
    var hi: int, lo: int := pkt[off + 2], pkt[off + 3];
    (hi * 0x100 + lo) / 8
  }

  function SeeHeader(pkt: seq<byte>, proto: byte, off: nat, frag: FragInfo): FragInfo
    requires off + BytesRead(proto) <= |pkt|
  {
    if proto != FRAGMENT then frag
    else FragInfo(true, FragOffset(pkt, off), frag.first || FragOffset(pkt, off) == 0)
  }

  datatype L4 = L4(proto: byte, off: nat, frag: FragInfo)

  // ---------------------------------------------------------------- the chain, without bounds

  /** A chain of extension headers from `proto` at `off`, as far as the packet's bytes reach:
      its upper-layer protocol and offset, and how many headers it has. */
  datatype Chain = Ends(l4: L4, headers: nat) | RunsOut

  function Walk(pkt: seq<byte>, proto: byte, off: nat, frag: FragInfo): Chain
    decreases |pkt| - off
  {
    if !IsExtension(proto) then Ends(L4(proto, off, frag), 0)
    else if off + BytesRead(proto) > |pkt| then RunsOut
    else
      match Walk(pkt, pkt[off], off + HeaderLength(pkt, proto, off), SeeHeader(pkt, proto, off, frag))
      case RunsOut => RunsOut
      case Ends(l4, n) => Ends(l4, n + 1)
  }

  /** The chains the data plane accepts. */
  predicate Acceptable(c: Chain) {
    c.Ends? && c.headers <= MAX_HEADERS && (c.headers == 0 || c.l4.off <= MAX_L4_OFF)
  }

  /** Offsets only grow along a chain. */
  lemma {:induction false} WalkForward(pkt: seq<byte>, proto: byte, off: nat, frag: FragInfo)
    requires Walk(pkt, proto, off, frag).Ends?
    ensures Walk(pkt, proto, off, frag).l4.off >= off
    ensures Walk(pkt, proto, off, frag).headers == 0 <==> !IsExtension(proto)
    decreases |pkt| - off
  {
    if IsExtension(proto) {
      WalkForward(pkt, pkt[off], off + HeaderLength(pkt, proto, off), SeeHeader(pkt, proto, off, frag));
    }
  }

  /** The loop of `try_k_firewall`, in place: at most five headers, none ending past offset 128.
      `None` is a drop. The loop refines the unbounded chain: it finds what the chain ends in exactly when
      the chain lies in the packet, has at most five headers and ends at offset at most 128. */
  method WalkBounded(pkt: seq<byte>, nextHdr: byte, start: nat) returns (r: Option<L4>)
    ensures r == var c := Walk(pkt, nextHdr, start, UNFRAGMENTED);
                 if Acceptable(c) then Some(c.l4) else None
  {
    var proto, frag := nextHdr, UNFRAGMENTED;
    var off: nat := start;
    var remaining := MAX_HEADERS;
    ghost var whole := Walk(pkt, nextHdr, start, UNFRAGMENTED);
    while IsExtension(proto)
      invariant 0 <= remaining <= MAX_HEADERS
      invariant off <= MAX_L4_OFF || remaining == MAX_HEADERS
      invariant var rest := Walk(pkt, proto, off, frag);
                if rest.Ends? then whole == Ends(rest.l4, rest.headers + (MAX_HEADERS - remaining))
                else whole == RunsOut
      decreases remaining
    {
      ghost var rest := Walk(pkt, proto, off, frag);
      if rest.Ends? { WalkForward(pkt, proto, off, frag); }
      if remaining == 0 { return None; }
      remaining := remaining - 1;
      if off + BytesRead(proto) > |pkt| { return None; }
      var next := pkt[off];
      var len := HeaderLength(pkt, proto, off);
      frag := SeeHeader(pkt, proto, off, frag);
      proto := next;
      off := off + len;
      if off > MAX_L4_OFF {
        if rest.Ends? { WalkForward(pkt, proto, off, frag); }
        return None;
      }
    }
    r := Some(L4(proto, off, frag));
  }

  /** A packet whose chain is too long, too far or cut short is dropped, never passed on as something else:
      whatever the loop accepts, its protocol is an upper-layer one. */
  lemma {:induction false} EndsInUpperLayer(pkt: seq<byte>, proto: byte, off: nat, frag: FragInfo)
    requires Walk(pkt, proto, off, frag).Ends?
    ensures !IsExtension(Walk(pkt, proto, off, frag).l4.proto)
    decreases |pkt| - off
  {
    if IsExtension(proto) {
      EndsInUpperLayer(pkt, pkt[off], off + HeaderLength(pkt, proto, off), SeeHeader(pkt, proto, off, frag));
    }
  }

  /** Bytes past the last header do not matter: a chain reads the same in any longer packet. */
  lemma {:induction false} WalkIgnoresTail(pkt: seq<byte>, tail: seq<byte>, proto: byte, off: nat, frag: FragInfo)
    requires Walk(pkt, proto, off, frag).Ends?
    ensures Walk(pkt + tail, proto, off, frag) == Walk(pkt, proto, off, frag)
    decreases |pkt| - off
  {
    if IsExtension(proto) {
      WalkIgnoresTail(pkt, tail, pkt[off], off + HeaderLength(pkt, proto, off), SeeHeader(pkt, proto, off, frag));
    }
  }

  /** Where the bytes read of the last header of a chain end: 4 bytes of a fragment header, 2 of any other. */
  function LastRead(pkt: seq<byte>, proto: byte, off: nat): nat
    decreases |pkt| - off
  {
    if off + BytesRead(proto) <= |pkt| && IsExtension(pkt[off]) then
      LastRead(pkt, pkt[off], off + HeaderLength(pkt, proto, off))
    else off + (if proto == 44 then 4 else 2)
  }

  /** A chain can be read in a packet that is cut short exactly when the cut leaves those bytes; then it reads
      as before. */
  lemma {:induction false} CutChainIff(pkt: seq<byte>, proto: byte, off: nat, frag: FragInfo, n: nat)
    requires Walk(pkt, proto, off, frag).Ends? && IsExtension(proto) && n <= |pkt|
    ensures Walk(pkt[..n], proto, off, frag).Ends? <==> LastRead(pkt, proto, off) <= n
    ensures Walk(pkt[..n], proto, off, frag).Ends? ==> Walk(pkt[..n], proto, off, frag) == Walk(pkt, proto, off, frag)
    ensures off + 2 <= LastRead(pkt, proto, off) <= |pkt|
    decreases |pkt| - off
  {
    var next, on, info := pkt[off], off + HeaderLength(pkt, proto, off), SeeHeader(pkt, proto, off, frag);
    if IsExtension(next) {
      CutChainIff(pkt, next, on, info, n);
    }
  }

  // ---------------------------------------------------------------- several fragment headers

  /** The offsets in the fragment headers of a chain, in order. */
  function Offsets(pkt: seq<byte>, proto: byte, off: nat): seq<nat>
    decreases |pkt| - off
  {
    if !IsExtension(proto) || off + BytesRead(proto) > |pkt| then []
    else
      (if proto == FRAGMENT then [FragOffset(pkt, off)] else [])
      + Offsets(pkt, pkt[off], off + HeaderLength(pkt, proto, off))
  }

  /** What is read of a chain's fragment headers: the offset in the last, and whether any of them was 0. */
  lemma {:induction false} ReadsOffsets(pkt: seq<byte>, proto: byte, off: nat, frag: FragInfo)
    requires Walk(pkt, proto, off, frag).Ends?
    ensures var os, r := Offsets(pkt, proto, off), Walk(pkt, proto, off, frag).l4.frag;
            && r.fragmented == (frag.fragmented || os != [])
            && r.offset == (if os == [] then frag.offset else os[|os| - 1])
            && r.first == (frag.first || 0 in os)
    decreases |pkt| - off
  {
    if IsExtension(proto) {
      ReadsOffsets(pkt, pkt[off], off + HeaderLength(pkt, proto, off), SeeHeader(pkt, proto, off, frag));
    }
  }

  /** A packet is taken for a first fragment while its last offset is not 0 exactly when it has several
      fragment headers, one of them at offset 0 before a last one that is not. With one header it never is. */
  lemma FalseFirstIff(pkt: seq<byte>, proto: byte, off: nat)
    requires Walk(pkt, proto, off, UNFRAGMENTED).Ends?
    ensures var os, r := Offsets(pkt, proto, off), Walk(pkt, proto, off, UNFRAGMENTED).l4.frag;
            && (r.first && r.offset != 0 <==> 0 in os && os[|os| - 1] != 0)
            && (r.first && r.offset != 0 ==> |os| >= 2)
  {
    ReadsOffsets(pkt, proto, off, UNFRAGMENTED);
  }

  /** Two fragment headers, at offset 0 and then 1, before a TCP header. */
  const TWO_HEADERS: seq<byte> := [FRAGMENT, 0, 0, 0, 0, 0, 0, 0, 6, 0, 0, 8, 0, 0, 0, 0]

  lemma TwoHeadersReadAsFirst()
    ensures Walk(TWO_HEADERS, FRAGMENT, 0, UNFRAGMENTED) == Ends(L4(6, 16, FragInfo(true, 1, true)), 2)
  {
    assert FragOffset(TWO_HEADERS, 0) == 0 && FragOffset(TWO_HEADERS, 8) == 1;
    assert Walk(TWO_HEADERS, 6, 16, FragInfo(true, 1, true)) == Ends(L4(6, 16, FragInfo(true, 1, true)), 0);
    assert SeeHeader(TWO_HEADERS, FRAGMENT, 8, FragInfo(true, 0, true)) == FragInfo(true, 1, true);
    assert Walk(TWO_HEADERS, FRAGMENT, 8, FragInfo(true, 0, true)) == Ends(L4(6, 16, FragInfo(true, 1, true)), 1);
  }
}
