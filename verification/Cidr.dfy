/** Two CIDR matchers of the daemon: one compares whole bytes and then the leading bits of the next
    byte, the other compares masked integers. */
module Cidr {
  import opened Types
  import opened Bytes

  /** An address of either family, by its octets. */
  predicate IsAddress(a: seq<byte>) {
    |a| == 4 || |a| == 16
  }

  /** An address specification: the network, and the prefix length written after the slash, if any. */
  datatype Spec = Spec(net: seq<byte>, prefix: Option<byte>)

  // ---------------------------------------------------------------- by bytes

  /** `CidrMatcher::parse`: no prefix reads as 0, and 0 reads as the whole address. */
  function MatcherPrefix(s: Spec): (p: nat)
    ensures p <= 8 * |s.net|
  {
    var written := if s.prefix.Some? then s.prefix.value else 0;
    if written == 0 then 8 * |s.net| else Min(written, 8 * |s.net|)
  }

  /** `CidrMatcher::matches`, on the octets of the address family. */
  predicate ByteMatch(s: Spec, a: seq<byte>)
    requires |a| == |s.net|
  {
    var prefix := MatcherPrefix(s);
    var full, rem := prefix / 8, prefix % 8;
    && a[..full] == s.net[..full]
    && (rem != 0 ==> ClearLow(a[full], 8 - rem) == ClearLow(s.net[full], 8 - rem))
  }

  // ---------------------------------------------------------------- by integers

  function IntPrefix(s: Spec): (p: nat)
    ensures p <= 8 * |s.net|
  {
    if s.prefix.Some? then Min(s.prefix.value, 8 * |s.net|) else 8 * |s.net|
  }

  /** `cidr_match_ip`: the mask keeps the leading bits; an address of the other family never matches. */
  predicate IntMatch(s: Spec, a: seq<byte>) {
    && |a| == |s.net|
    && ClearLow(Value(s.net), 8 * |s.net| - IntPrefix(s)) == ClearLow(Value(a), 8 * |a| - IntPrefix(s))
  }

  // ---------------------------------------------------------------- agreement

  /** Comparing `p` leading bits byte by byte is comparing the numbers they spell. */
  lemma BytewiseIsTopBits(a: seq<byte>, b: seq<byte>, p: nat)
    requires |a| == |b| && p <= 8 * |a|
    ensures var full, rem := p / 8, p % 8;
            (a[..full] == b[..full] && (rem != 0 ==> ClearLow(a[full], 8 - rem) == ClearLow(b[full], 8 - rem)))
            <==> TopBits(a, p) == TopBits(b, p)
  {
    var full, rem := p / 8, p % 8;
    assert a == a[..full] + a[full..] && b == b[..full] + b[full..];
    PrefixSplit(a[..full], a[full..], b[..full], b[full..], rem);
    if rem == 0 {
      NoLeadingBits(a[full..]);
      NoLeadingBits(b[full..]);
    } else {
      FirstByteBits(a[full..], rem);
      FirstByteBits(b[full..], rem);
      ClearLowSameBits(a[full], b[full], 8 - rem);
    }
  }

  lemma NoLeadingBits(s: seq<byte>)
    ensures TopBits(s, 0) == 0
  {
    TopBitsDrop([], s, 0);
    assert [] + s == s;
  }

  /** Fewer than eight leading bits are those of the first byte. */
  lemma FirstByteBits(s: seq<byte>, q: nat)
    requires s != [] && q <= 8
    ensures TopBits(s, q) == ShiftRight(s[0], 8 - q)
  {
    assert s == s[..1] + s[1..] && s[..1] == [] + [s[0]];
    TopBitsDrop(s[..1], s[1..], q);
    ValueLast([], s[0]);
  }

  lemma IntMatchIsTopBits(s: Spec, a: seq<byte>)
    requires |a| == |s.net|
    ensures IntMatch(s, a) <==> TopBits(a, IntPrefix(s)) == TopBits(s.net, IntPrefix(s))
  {
    ClearLowSameBits(Value(s.net), Value(a), 8 * |a| - IntPrefix(s));
  }

  /** The two agree on a specification, for every address of its family, exactly when the prefix
      written is not 0. */
  lemma MatchersAgreeIff(s: Spec)
    requires IsAddress(s.net)
    ensures (forall a: seq<byte> | |a| == |s.net| :: ByteMatch(s, a) <==> IntMatch(s, a)) <==> s.prefix != Some(0)
  {
    if s.prefix != Some(0) {
      forall a: seq<byte> | |a| == |s.net| ensures ByteMatch(s, a) <==> IntMatch(s, a) {
        MatchersAgree(s, a);
      }
    } else {
      var other := s.net[0 := if s.net[0] == 0 then 1 else 0];
      assert |other| == |s.net|;
      ZeroPrefix(s, other);
    }
  }

  lemma MatchersAgree(s: Spec, a: seq<byte>)
    requires |a| == |s.net| && s.prefix != Some(0)
    ensures ByteMatch(s, a) <==> IntMatch(s, a)
  {
    assert MatcherPrefix(s) == IntPrefix(s);
    BytewiseIsTopBits(a, s.net, IntPrefix(s));
    IntMatchIsTopBits(s, a);
  }

  /** With `/0` one matcher takes every address and the other only the network address itself. */
  lemma ZeroPrefix(s: Spec, a: seq<byte>)
    requires |a| == |s.net| && s.prefix == Some(0)
    ensures IntMatch(s, a) && (ByteMatch(s, a) <==> a == s.net)
  {
    IntMatchIsTopBits(s, a);
    NoLeadingBits(a);
    NoLeadingBits(s.net);
    assert a[..|a|] == a && s.net[..|a|] == s.net;
  }
}
