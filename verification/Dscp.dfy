/** QoS marking: the DSCP field of an IP packet rewritten in place, with the incremental IPv4
    header checksum of section 3 of RFC 1624. */
module Dscp {
  import opened Types

  // ---------------------------------------------------------------- ones-complement sums

  function Word(hi: byte, lo: byte): u16 {
    var h: int := hi;
    h * 0x100 + lo
  }

  /** The 16-bit words of a header, added up. */
  function WordSum(h: seq<byte>): nat
    decreases |h|
  {
    if |h| < 2 then 0 else Word(h[0], h[1]) + WordSum(h[2..])
  }

  /** Carries added back in until the sum fits 16 bits. */
  function Fold(x: nat): u16 {
    if x < 0x1_0000 then x else Fold(x % 0x1_0000 + x / 0x1_0000)
  }

  /** The checksum field, bytes 10 and 11. */
  function Field(h: seq<byte>): u16
    requires |h| >= 12
  {
    Word(h[10], h[11])
  }

  function WithField(h: seq<byte>, c: u16): (w: seq<byte>)
    requires |h| >= 12
    ensures |w| == |h|
  {
    h[10 := c / 0x100][11 := c % 0x100]
  }

  /** The checksum computed from scratch: over the header with its checksum field zero. */
  function ChecksumOf(h: seq<byte>): u16
    requires |h| >= 20
  {
    0xFFFF - Fold(WordSum(WithField(h, 0)))
  }

  /** What a receiver checks. */
  predicate ValidChecksum(h: seq<byte>) {
    Fold(WordSum(h)) == 0xFFFF
  }

  /** An IPv4 header of the length its first byte says, at least five 32-bit words. */
  predicate Ipv4Header(h: seq<byte>) {
    |h| >= 20 && |h| == 4 * (h[0] % 0x10)
  }

  lemma {:induction false} FoldResidue(x: nat)
    requires x > 0
    ensures Fold(x) == (x - 1) % 0xFFFF + 1
  {
    if x >= 0x1_0000 {
      var y, q := x % 0x1_0000 + x / 0x1_0000, x / 0x1_0000;
      assert x - 1 == (y - 1) + 0xFFFF * q;
      FoldResidue(y);
    }
  }

  /** Two folds are enough for a sum of three words. */
  lemma TwoFolds(x: nat)
    requires x <= 3 * 0xFFFF
    ensures var once := x % 0x1_0000 + x / 0x1_0000;
            Fold(x) == once % 0x1_0000 + once / 0x1_0000
  {
    var once := x % 0x1_0000 + x / 0x1_0000;
    var twice := once % 0x1_0000 + once / 0x1_0000;
    assert Fold(twice) == twice;
    assert Fold(once) == twice;
  }

  lemma {:induction false} WordSumUpdate(h: seq<byte>, i: nat, b: byte)
    requires i < |h| && |h| % 2 == 0
    ensures WordSum(h[i := b]) == WordSum(h) + (b - h[i]) * (if i % 2 == 0 then 0x100 else 1)
    decreases |h|
  {
    if i < 2 {
      assert h[i := b][2..] == h[2..];
    } else {
      assert h[i := b][2..] == h[2..][i - 2 := b];
      WordSumUpdate(h[2..], i - 2, b);
    }
  }

  lemma WordSumField(h: seq<byte>, c: u16)
    requires |h| >= 20 && |h| % 2 == 0
    ensures WordSum(WithField(h, c)) == WordSum(h) - Field(h) + c
  {
    WordSumUpdate(h, 10, c / 0x100);
    WordSumUpdate(h[10 := c / 0x100], 11, c % 0x100);
  }

  // ---------------------------------------------------------------- the rewrite

  /** The new type-of-service byte: the DSCP value and the old ECN bits. */
  function NewTos(tos: byte, dscp: byte): byte {
    dscp % 0x40 * 4 + tos % 4
  }

  /** HC' = ~(~HC + ~m + m'), with two folds. */
  function Incremental(hc: u16, before: u16, after: u16): u16 {
    var sum := (0xFFFF - hc) + (0xFFFF - before) + after;
    var once := sum % 0x1_0000 + sum / 0x1_0000;
    var twice := once % 0x1_0000 + once / 0x1_0000;
    0xFFFF - twice % 0x1_0000
  }

  /** A header with its DSCP field set to `dscp`. */
  function Marked(h: seq<byte>, dscp: byte): (m: seq<byte>)
    requires |h| >= 12
    ensures |m| == |h|
  {
    var tos := NewTos(h[1], dscp);
    if tos == h[1] then h
    else WithField(h[1 := tos], Incremental(Field(h), Word(h[0], h[1]), Word(h[0], tos)))
  }

  /** Only the type of service and the checksum change. */
  lemma MarkedBytes(h: seq<byte>, dscp: byte, i: nat)
    requires 12 <= |h| && i < |h| && i != 1 && i != 10 && i != 11
    ensures Marked(h, dscp)[i] == h[i]
  {
  }

  /** The DSCP value is in the new type of service, and the old ECN bits. */
  lemma MarkedTos(h: seq<byte>, dscp: byte)
    requires 12 <= |h|
    ensures Marked(h, dscp)[1] / 4 == dscp % 64 && Marked(h, dscp)[1] % 4 == h[1] % 4
  {
  }

  /** The rewrite keeps the checksum right. For a valid header of any length, the result is valid, only
      the DSCP bits and the checksum change, and a changed header carries exactly the checksum
      recomputed from scratch. */
  lemma MarkKeepsChecksum(h: seq<byte>, dscp: byte)
    requires Ipv4Header(h) && ValidChecksum(h)
    ensures var m := Marked(h, dscp);
            && Ipv4Header(m) && ValidChecksum(m)
            && m[1] / 4 == dscp % 0x40 && m[1] % 4 == h[1] % 4
            && (forall i | 0 <= i < |h| && i !in {1, 10, 11} :: m[i] == h[i])
            && (m != h ==> Field(m) == ChecksumOf(m))
  {
    var tos := NewTos(h[1], dscp);
    if tos != h[1] {
      ChangedTos(h, tos);
    }
  }

  lemma ChangedTos(h: seq<byte>, tos: byte)
    requires Ipv4Header(h) && ValidChecksum(h)
    ensures var c := Incremental(Field(h), Word(h[0], h[1]), Word(h[0], tos));
            && c == ChecksumOf(WithField(h[1 := tos], c))
            && ValidChecksum(WithField(h[1 := tos], c))
  {
    HeaderShape(h);
    WordSumField(h, 0);
    RestAtLeastFirst(h);
    IncrementalIsRecomputed(WordSum(WithField(h, 0)), Field(h), Word(h[0], h[1]), Word(h[0], tos));
    FieldCompletes(h, tos, Incremental(Field(h), Word(h[0], h[1]), Word(h[0], tos)));
  }

  lemma HeaderShape(h: seq<byte>)
    requires Ipv4Header(h)
    ensures |h| % 2 == 0 && h[0] >= 5
  {
    var words := h[0] % 0x10;
    assert |h| == 2 * (2 * words);
  }

  lemma FieldCompletes(h: seq<byte>, tos: byte, c: u16)
    requires |h| >= 20 && |h| % 2 == 0
    requires var r := WordSum(WithField(h, 0)) - Word(h[0], h[1]) + Word(h[0], tos);
             r >= 0 && c == 0xFFFF - Fold(r) && Fold(r + c) == 0xFFFF
    ensures c == ChecksumOf(WithField(h[1 := tos], c)) && ValidChecksum(WithField(h[1 := tos], c))
  {
    var t := h[1 := tos];
    SumsAfterTos(h, tos, c);
    assert WithField(WithField(t, c), 0) == WithField(t, 0);
  }

  lemma SumsAfterTos(h: seq<byte>, tos: byte, c: u16)
    requires |h| >= 20 && |h| % 2 == 0
    ensures var t, rest := h[1 := tos], WordSum(WithField(h, 0)) - Word(h[0], h[1]) + Word(h[0], tos);
            WordSum(WithField(t, 0)) == rest && WordSum(WithField(t, c)) == rest + c
  {
    var t := h[1 := tos];
    WordSumUpdate(h, 1, tos);
    WordSumField(h, 0);
    WordSumField(t, 0);
    WordSumField(t, c);
    assert Field(t) == Field(h);
  }

  lemma RestAtLeastFirst(h: seq<byte>)
    requires |h| >= 20
    ensures WordSum(WithField(h, 0)) >= Word(h[0], h[1])
  {
    var t := WithField(h, 0);
    assert t[0] == h[0] && t[1] == h[1];
  }

  /** `rest` is the sum of a header without its checksum `hc`; one word `before` becomes `after`. */
  lemma IncrementalIsRecomputed(rest: nat, hc: u16, before: u16, after: u16)
    requires rest >= before && after > 0 && Fold(rest + hc) == 0xFFFF
    ensures Incremental(hc, before, after) == 0xFFFF - Fold(rest - before + after)
    ensures Fold(rest - before + after + Incremental(hc, before, after)) == 0xFFFF
  {
    IncrementalFolds(hc, before, after);
    var q := MultipleOf(rest + hc);
    SameResidue((0xFFFF - hc) + (0xFFFF - before) + after, rest - before + after, q - 2);
    ComplementCompletes(rest - before + after);
  }

  lemma IncrementalFolds(hc: u16, before: u16, after: u16)
    ensures Incremental(hc, before, after) == 0xFFFF - Fold((0xFFFF - hc) + (0xFFFF - before) + after)
  {
    TwoFolds((0xFFFF - hc) + (0xFFFF - before) + after);
  }

  lemma MultipleOf(x: nat) returns (q: int)
    requires Fold(x) == 0xFFFF
    ensures x == 0xFFFF * q
  {
    FoldResidue(x);
    q := (x - 1) / 0xFFFF + 1;
  }

  lemma SameResidue(x: nat, y: nat, q: int)
    requires x > 0 && y > 0 && y == x + 0xFFFF * q
    ensures Fold(x) == Fold(y)
  {
    FoldResidue(x);
    FoldResidue(y);
    ModShift(x - 1, q);
  }

  lemma {:induction false} ModShift(a: int, q: int)
    ensures (a + 0xFFFF * q) % 0xFFFF == a % 0xFFFF
    decreases if q < 0 then -q else q
  {
    if q > 0 {
      ModShift(a, q - 1);
      assert (a + 0xFFFF * (q - 1) + 0xFFFF) % 0xFFFF == (a + 0xFFFF * (q - 1)) % 0xFFFF;
    } else if q < 0 {
      ModShift(a, q + 1);
      assert (a + 0xFFFF * q + 0xFFFF) % 0xFFFF == (a + 0xFFFF * q) % 0xFFFF;
    }
  }

  lemma ComplementCompletes(x: nat)
    requires x > 0
    ensures Fold(x + (0xFFFF - Fold(x))) == 0xFFFF
  {
    FoldResidue(x);
    var r := (x - 1) / 0xFFFF;
    assert x + (0xFFFF - Fold(x)) == 0xFFFF + 0xFFFF * r;
    SameResidue(0xFFFF, 0xFFFF + 0xFFFF * r, r);
  }

  /** A frame with the IPv4 header at `l3` marked, or as it was when it ends before the checksum does. */
  function MarkedV4Frame(frame: seq<byte>, l3: nat, dscp: byte): (m: seq<byte>)
    ensures |m| == |frame|
  {
    if l3 + 12 <= |frame| then frame[..l3] + Marked(frame[l3..], dscp) else frame
  }

  /** `mark_ipv4_dscp`: the frame is rewritten in place, or left alone when it ends before the checksum. */
  method MarkIpv4(frame: array<byte>, l3: nat, dscp: byte)
    modifies frame
    ensures frame[..] == MarkedV4Frame(old(frame[..]), l3, dscp)
  {
    if l3 + 1 >= frame.Length { return; }
    ghost var before := frame[..];
    var oldTos := frame[l3 + 1];
    var newTos := NewTos(oldTos, dscp);
    if newTos == oldTos {
      assert l3 <= |before| ==> before == before[..l3] + before[l3..];
      return;
    }
    var vihl := frame[l3];
    if l3 + 11 >= frame.Length { return; }
    var hc := Word(frame[l3 + 10], frame[l3 + 11]);
    var newHc := Incremental(hc, Word(vihl, oldTos), Word(vihl, newTos));
    frame[l3 + 1] := newTos;
    frame[l3 + 10] := newHc / 0x100;
    frame[l3 + 11] := newHc % 0x100;
    MarkedInFrame(before, l3, dscp, newHc);
    assert frame[..] == before[l3 + 1 := newTos][l3 + 10 := newHc / 0x100][l3 + 11 := newHc % 0x100];
  }

  lemma MarkedInFrame(frame: seq<byte>, l3: nat, dscp: byte, c: u16)
    requires l3 + 12 <= |frame|
    requires var h := frame[l3..]; var tos := NewTos(h[1], dscp);
             tos != h[1] && c == Incremental(Field(h), Word(h[0], h[1]), Word(h[0], tos))
    ensures frame[..l3] + Marked(frame[l3..], dscp)
            == frame[l3 + 1 := NewTos(frame[l3 + 1], dscp)][l3 + 10 := c / 0x100][l3 + 11 := c % 0x100]
  {
  }

  // ---------------------------------------------------------------- IPv6

  /** The first two bytes of an IPv6 header, with the DSCP bits of the traffic class replaced. */
  function MarkedV6(b0: byte, b1: byte, dscp: byte): (byte, byte) {
    if b0 % 0x10 * 4 + b1 / 0x40 == dscp then (b0, b1)
    else (b0 / 0x10 * 0x10 + dscp / 4 % 0x10, dscp % 4 * 0x40 + b1 / 0x10 % 4 * 0x10 + b1 % 0x10)
  }

  /** A frame with the IPv6 header at `l3` marked. */
  function MarkedV6Frame(frame: seq<byte>, l3: nat, dscp: byte): (m: seq<byte>)
    ensures |m| == |frame|
  {
    if l3 + 2 <= |frame| then
      var (b0, b1) := MarkedV6(frame[l3], frame[l3 + 1], dscp);
      frame[l3 := b0][l3 + 1 := b1]
    else frame
  }

  lemma MarkedV6Bytes(frame: seq<byte>, l3: nat, dscp: byte)
    requires l3 + 2 <= |frame|
    ensures var (m, b) := (MarkedV6Frame(frame, l3, dscp), MarkedV6(frame[l3], frame[l3 + 1], dscp));
            m[l3] == b.0 && m[l3 + 1] == b.1
  {
  }

  /** `mark_ipv6_dscp`. */
  method MarkIpv6(frame: array<byte>, l3: nat, dscp: byte)
    modifies frame
    ensures frame[..] == MarkedV6Frame(old(frame[..]), l3, dscp)
  {
    if l3 + 1 >= frame.Length { return; }
    var vcf0, vcf1 := frame[l3], frame[l3 + 1];
    if vcf0 % 0x10 * 4 + vcf1 / 0x40 == dscp { return; }
    var ecn := vcf1 / 0x10 % 4;
    frame[l3] := vcf0 / 0x10 * 0x10 + dscp / 4 % 0x10;
    frame[l3 + 1] := dscp % 4 * 0x40 + ecn * 0x10 + vcf1 % 0x10;
  }

  /** The DSCP field reads back as written; version, ECN and flow label are kept. */
  lemma MarkV6Fields(b0: byte, b1: byte, dscp: byte)
    ensures var (c0, c1) := MarkedV6(b0, b1, dscp);
            && c0 % 0x10 * 4 + c1 / 0x40 == dscp % 0x40
            && c0 / 0x10 == b0 / 0x10 && c1 / 0x10 % 4 == b1 / 0x10 % 4 && c1 % 0x10 == b1 % 0x10
  {
    V6FirstByte(b0 / 0x10, dscp / 4 % 0x10);
    V6SecondByte(dscp % 4, b1 / 0x10 % 4, b1 % 0x10);
    DscpHalves(dscp);
  }

  lemma DscpHalves(dscp: byte)
    ensures dscp % 0x40 == dscp / 4 % 0x10 * 4 + dscp % 4
  {
  }

  lemma V6FirstByte(version: nat, high: nat)
    requires high < 0x10
    ensures (version * 0x10 + high) % 0x10 == high && (version * 0x10 + high) / 0x10 == version
  {
  }

  lemma V6SecondByte(d: nat, ecn: nat, low: nat)
    requires d < 4 && ecn < 4 && low < 0x10
    ensures var c := d * 0x40 + ecn * 0x10 + low;
            c < 0x100 && c / 0x40 == d && c / 0x10 % 4 == ecn && c % 0x10 == low
  {
  }
}
