/** Big-endian byte strings as numbers, and their leading bits. */
module Bytes {
  import opened Types

  /** `x >> k`. */
  function ShiftRight(x: nat, k: nat): nat {
    if k == 0 then x else ShiftRight(x / 2, k - 1)
  }

  /** `x & (MAX << k)`: the low `k` bits cleared. */
  function ClearLow(x: nat, k: nat): nat {
    if k == 0 then x else 2 * ClearLow(x / 2, k - 1)
  }

  /** The number a byte string spells in network order. */
  function Value(s: seq<byte>): nat {
    if s == [] then 0 else Value(s[..|s| - 1]) * 0x100 + s[|s| - 1]
  }

  /** The number spelt by the first `p` bits. */
  function TopBits(s: seq<byte>, p: nat): nat
    requires p <= 8 * |s|
  {
    ShiftRight(Value(s), 8 * |s| - p)
  }

  lemma {:induction false} ShiftRightAdd(x: nat, a: nat, b: nat)
    ensures ShiftRight(x, a + b) == ShiftRight(ShiftRight(x, a), b)
  {
    if a > 0 {
      ShiftRightAdd(x / 2, a - 1, b);
    }
  }

  /** Masking two numbers gives the same result exactly when the bits kept agree. */
  lemma {:induction false} ClearLowSameBits(x: nat, y: nat, k: nat)
    ensures ClearLow(x, k) == ClearLow(y, k) <==> ShiftRight(x, k) == ShiftRight(y, k)
  {
    if k > 0 {
      ClearLowSameBits(x / 2, y / 2, k - 1);
    }
  }

  lemma {:induction false} ClearLowKeepsTop(x: nat, k: nat)
    ensures ShiftRight(ClearLow(x, k), k) == ShiftRight(x, k)
    ensures ClearLow(x, k) <= x
  {
    if k > 0 {
      ClearLowKeepsTop(x / 2, k - 1);
      assert 2 * ClearLow(x / 2, k - 1) / 2 == ClearLow(x / 2, k - 1);
    }
  }

  lemma ShiftRightByConstant(x: nat, k: nat)
    requires k <= 8
    ensures ShiftRight(x, k) == x / [1, 2, 4, 8, 16, 32, 64, 128, 256][k]
  {
    if k >= 4 {
      ShiftRightAdd(x, 4, k - 4);
      assert ShiftRight(x, 4) == x / 16;
    }
  }

  function Weight(bits: nat): nat
    requires bits <= 8
  {
    [1, 2, 4, 8, 16, 32, 64, 128, 256][bits]
  }

  lemma {:induction false} ShiftBelowByte(v: nat, b: nat, bits: nat, k: nat)
    requires k <= bits <= 8 && b < Weight(bits)
    ensures ShiftRight(v * Weight(bits) + b, k) == v * Weight(bits - k) + ShiftRight(b, k)
    ensures ShiftRight(b, k) < Weight(bits - k)
    decreases k
  {
    if k > 0 {
      HalveBelow(v, b, bits);
      ShiftBelowByte(v, b / 2, bits - 1, k - 1);
    }
  }

  lemma HalveBelow(v: nat, b: nat, bits: nat)
    requires 0 < bits <= 8 && b < Weight(bits)
    ensures (v * Weight(bits) + b) / 2 == v * Weight(bits - 1) + b / 2 && b / 2 < Weight(bits - 1)
  {
    var w := Weight(bits - 1);
    assert Weight(bits) == 2 * w;
    assert v * (2 * w) == 2 * (v * w);
  }

  /** Shifting by less than a byte keeps the leading bytes and the top of the last one. */
  lemma ShiftLastByte(v: nat, b: byte, v': nat, b': byte, k: nat)
    requires k < 8
    ensures ShiftRight(v * 0x100 + b, k) == ShiftRight(v' * 0x100 + b', k)
            <==> v == v' && ShiftRight(b, k) == ShiftRight(b', k)
  {
    ShiftBelowByte(v, b, 8, k);
    ShiftBelowByte(v', b', 8, k);
    DigitsUnique(v, ShiftRight(b, k), v', ShiftRight(b', k), Weight(8 - k));
  }

  /** Masking less than a byte leaves what is above alone. */
  lemma {:induction false} ClearBelowByte(v: nat, b: nat, bits: nat, k: nat)
    requires k <= bits <= 8 && b < Weight(bits)
    ensures ClearLow(v * Weight(bits) + b, k) == v * Weight(bits) + ClearLow(b, k)
    decreases k
  {
    if k > 0 {
      HalveBelow(v, b, bits);
      ClearBelowByte(v, b / 2, bits - 1, k - 1);
      DoubleWeight(v, bits);
    }
  }

  lemma DoubleWeight(v: nat, bits: nat)
    requires 0 < bits <= 8
    ensures 2 * (v * Weight(bits - 1)) == v * Weight(bits)
  {
    assert Weight(bits) == 2 * Weight(bits - 1);
  }

  lemma {:induction false} ClearLowAdd(x: nat, a: nat, b: nat)
    requires a <= 8
    ensures ClearLow(x, a + b) == ClearLow(ShiftRight(x, a), b) * Weight(a)
  {
    if a > 0 {
      ClearLowAdd(x / 2, a - 1, b);
      DoubleWeight(ClearLow(ShiftRight(x, a), b), a);
    }
  }

  /** The low bits of a number are clear exactly when its last bytes are zero and the low bits of the byte
      before them are clear. */
  lemma {:induction false} ClearByBytes(s: seq<byte>, k: nat)
    requires k <= 8 * |s|
    ensures ClearLow(Value(s), k) == Value(s) <==> TailClear(s, k)
    decreases |s|
  {
    if k > 0 {
      var front, b := s[..|s| - 1], s[|s| - 1];
      var v: nat := Value(front);
      if k < 8 {
        ClearBelowByte(v, b, 8, k);
      } else {
        ClearByBytes(front, k - 8);
        ClearWholeByte(v, b, k - 8);
        TailClearSnoc(front, b, k);
        assert s == front + [b];
      }
    }
  }

  lemma TailClearSnoc(s: seq<byte>, b: byte, k: nat)
    requires 8 <= k <= 8 * |s| + 8
    ensures TailClear(s + [b], k) <==> b == 0 && TailClear(s, k - 8)
  {
    var t := s + [b];
    assert |t| - k / 8 == |s| - (k - 8) / 8 && k % 8 == (k - 8) % 8;
    assert t[|s|] == b && forall i | 0 <= i < |s| :: t[i] == s[i];
  }

  predicate TailClear(s: seq<byte>, k: nat)
    requires k <= 8 * |s|
  {
    && (forall i | |s| - k / 8 <= i < |s| :: s[i] == 0)
    && (k % 8 != 0 ==> ClearLow(s[|s| - k / 8 - 1], k % 8) == s[|s| - k / 8 - 1])
  }

  lemma ClearWholeByte(v: nat, b: byte, k: nat)
    ensures ClearLow(v * 0x100 + b, 8 + k) == v * 0x100 + b <==> b == 0 && ClearLow(v, k) == v
  {
    ClearLowAdd(v * 0x100 + b, 8, k);
    ShiftRightByConstant(v * 0x100 + b, 8);
    assert (v * 0x100 + b) / 0x100 == v;
    DigitsUnique(ClearLow(v, k), 0, v, b, 0x100);
  }

  lemma ClearLowTwice(x: nat, k: nat)
    ensures ClearLow(ClearLow(x, k), k) == ClearLow(x, k)
  {
    ClearLowKeepsTop(x, k);
    ClearLowSameBits(ClearLow(x, k), x, k);
  }

  lemma ValueAppendFour(s: seq<byte>, a: byte, b: byte, c: byte, d: byte)
    ensures Value(s + [a, b, c, d]) == Value(s) * 0x1_0000_0000 + Digits(a, b, c, d)
  {
    var s1, s2, s3 := s + [a], s + [a] + [b], s + [a] + [b] + [c];
    ValueLast(s, a);
    ValueLast(s1, b);
    ValueLast(s2, c);
    ValueLast(s3, d);
    assert s + [a, b, c, d] == s3 + [d];
  }

  lemma DigitsUnique(v: nat, r: nat, v': nat, r': nat, w: nat)
    requires r < w && r' < w
    ensures v * w + r == v' * w + r' <==> v == v' && r == r'
  {
    if v < v' {
      assert v * w + w <= v' * w by { assert (v + 1) * w <= v' * w; }
    } else if v' < v {
      assert v' * w + w <= v * w by { assert (v' + 1) * w <= v * w; }
    }
  }

  lemma ValueLast(s: seq<byte>, b: byte)
    ensures Value(s + [b]) == Value(s) * 0x100 + b
  {
    assert (s + [b])[..|s|] == s;
  }

  lemma {:induction false} ValueInjective(s: seq<byte>, t: seq<byte>)
    requires |s| == |t| && Value(s) == Value(t)
    ensures s == t
  {
    if s != [] {
      ValueInjective(s[..|s| - 1], t[..|t| - 1]);
      assert s == s[..|s| - 1] + [s[|s| - 1]];
      assert t == t[..|t| - 1] + [t[|t| - 1]];
    }
  }

  lemma TopBitsDropByte(s: seq<byte>, b: byte, q: nat)
    requires q <= 8 * |s|
    ensures TopBits(s + [b], q) == TopBits(s, q)
  {
    ValueLast(s, b);
    ShiftRightAdd(Value(s + [b]), 8, 8 * |s| - q);
    ShiftRightByConstant(Value(s + [b]), 8);
  }

  /** Leading bits that end inside `s` do not see what follows it. */
  lemma {:induction false} TopBitsDrop(s: seq<byte>, t: seq<byte>, q: nat)
    requires q <= 8 * |s|
    ensures TopBits(s + t, q) == TopBits(s, q)
  {
    if t == [] {
      assert s + t == s;
    } else {
      var t', b := t[..|t| - 1], t[|t| - 1];
      assert s + t == (s + t') + [b];
      TopBitsDropByte(s + t', b, q);
      TopBitsDrop(s, t', q);
    }
  }

  /** Two byte strings agree on leading bits exactly when their whole leading bytes are equal
      and the rest agrees on the bits that are left. */
  lemma {:induction false} PrefixSplit(h: seq<byte>, m: seq<byte>, h': seq<byte>, m': seq<byte>, q: nat)
    requires |h| == |h'| && |m| == |m'| && q <= 8 * |m|
    ensures TopBits(h + m, 8 * |h| + q) == TopBits(h' + m', 8 * |h| + q)
            <==> h == h' && TopBits(m, q) == TopBits(m', q)
    decreases |m|
  {
    if m == [] {
      assert h + m == h && h' + m' == h';
      ValueEqual(h, h');
    } else {
      var n, b, n', b' := m[..|m| - 1], m[|m| - 1], m'[..|m'| - 1], m'[|m'| - 1];
      assert m == n + [b] && m' == n' + [b'];
      if q <= 8 * |n| {
        PrefixSplit(h, n, h', n', q);
        TopBitsOfFront(h, n, b, q);
        TopBitsOfFront(h', n', b', q);
      } else {
        PrefixSplitLast(h, n, b, h', n', b', q);
      }
    }
  }

  lemma PrefixSplitLast(h: seq<byte>, n: seq<byte>, b: byte, h': seq<byte>, n': seq<byte>, b': byte, q: nat)
    requires |h| == |h'| && |n| == |n'| && 8 * |n| < q <= 8 * |n| + 8
    ensures TopBits(h + (n + [b]), 8 * |h| + q) == TopBits(h' + (n' + [b']), 8 * |h| + q)
            <==> h == h' && TopBits(n + [b], q) == TopBits(n' + [b'], q)
  {
    assert h + (n + [b]) == (h + n) + [b] && h' + (n' + [b']) == (h' + n') + [b'];
    PrefixSplitInLastByte(h, n, b, h', n', b', 8 * |n| + 8 - q);
  }

  lemma TopBitsOfFront(h: seq<byte>, n: seq<byte>, b: byte, q: nat)
    requires q <= 8 * |n|
    ensures TopBits(h + (n + [b]), 8 * |h| + q) == TopBits(h + n, 8 * |h| + q)
    ensures TopBits(n + [b], q) == TopBits(n, q)
  {
    assert h + (n + [b]) == (h + n) + [b];
    TopBitsDropByte(h + n, b, 8 * |h| + q);
    TopBitsDropByte(n, b, q);
  }

  lemma ValueEqual(s: seq<byte>, t: seq<byte>)
    requires |s| == |t|
    ensures Value(s) == Value(t) <==> s == t
  {
    if Value(s) == Value(t) { ValueInjective(s, t); }
  }

  lemma AppendEqual(h: seq<byte>, n: seq<byte>, h': seq<byte>, n': seq<byte>)
    requires |h| == |h'| && |n| == |n'|
    ensures h + n == h' + n' <==> h == h' && n == n'
  {
    if h + n == h' + n' {
      assert h == (h + n)[..|h|] && n == (h + n)[|h|..];
      assert h' == (h' + n')[..|h|] && n' == (h' + n')[|h|..];
    }
  }

  lemma PrefixSplitInLastByte(
    h: seq<byte>, n: seq<byte>, b: byte, h': seq<byte>, n': seq<byte>, b': byte, k: nat)
    requires |h| == |h'| && |n| == |n'| && k < 8
    ensures ShiftRight(Value((h + n) + [b]), k) == ShiftRight(Value((h' + n') + [b']), k)
            <==> h == h' && ShiftRight(Value(n + [b]), k) == ShiftRight(Value(n' + [b']), k)
  {
    SplitLastByte(h + n, b, h' + n', b', k);
    SplitLastByte(n, b, n', b', k);
    AppendEqual(h, n, h', n');
  }

  lemma SplitLastByte(s: seq<byte>, b: byte, t: seq<byte>, c: byte, k: nat)
    requires |s| == |t| && k < 8
    ensures ShiftRight(Value(s + [b]), k) == ShiftRight(Value(t + [c]), k)
            <==> s == t && ShiftRight(b, k) == ShiftRight(c, k)
  {
    ValueLast(s, b);
    ValueLast(t, c);
    ShiftLastByte(Value(s), b, Value(t), c, k);
    ValueEqual(s, t);
  }

  function Digits(a: int, b: int, c: int, d: int): int {
    ((a * 0x100 + b) * 0x100 + c) * 0x100 + d
  }

  lemma ValueOfFour(a: byte, b: byte, c: byte, d: byte)
    ensures Value([a, b, c, d]) == Digits(a, b, c, d)
  {
    ValueLast([], a);
    ValueLast([a], b);
    ValueLast([a, b], c);
    ValueLast([a, b, c], d);
    assert [] + [a] == [a] && [a] + [b] == [a, b] && [a, b] + [c] == [a, b, c] && [a, b, c] + [d] == [a, b, c, d];
  }

  lemma DigitsOfU32(x: u32)
    ensures Digits(x / 0x100_0000, x / 0x1_0000 % 0x100, x / 0x100 % 0x100, x % 0x100) == x
  {
    var y, z := x / 0x100, x / 0x1_0000;
    assert y / 0x100 == z && z / 0x100 == x / 0x100_0000;
    assert x == y * 0x100 + x % 0x100 && y == z * 0x100 + y % 0x100 && z == z / 0x100 * 0x100 + z % 0x100;
  }

  lemma ValueOfU32(x: u32)
    ensures Value(BytesOfU32(x)) == x
  {
    var b := BytesOfU32(x);
    ValueOfFour(b[0], b[1], b[2], b[3]);
    DigitsOfU32(x);
    assert b == [b[0], b[1], b[2], b[3]];
  }

  lemma BytesOfU32Injective(x: u32, y: u32)
    requires BytesOfU32(x) == BytesOfU32(y)
    ensures x == y
  {
    ValueOfU32(x);
    ValueOfU32(y);
  }

  lemma BytesOfU16Injective(x: u16, y: u16)
    ensures BytesOfU16(x) == BytesOfU16(y) <==> x == y
  {
    if BytesOfU16(x) == BytesOfU16(y) {
      var xh: int, xl: int, yh: int, yl: int := BytesOfU16(x)[0], BytesOfU16(x)[1], BytesOfU16(y)[0], BytesOfU16(y)[1];
      assert xh * 0x100 + xl == yh * 0x100 + yl;
    }
  }

  lemma U16Here(pkt: seq<byte>, i: nat, x: u16)
    requires i + 2 <= |pkt| && pkt[i..i + 2] == BytesOfU16(x)
    ensures U16At(pkt, i) == x
  {
    assert pkt[i] == pkt[i..i + 2][0] && pkt[i + 1] == pkt[i..i + 2][1];
  }

  lemma U32Here(pkt: seq<byte>, i: nat, x: u32)
    requires i + 4 <= |pkt| && pkt[i..i + 4] == BytesOfU32(x)
    ensures U32At(pkt, i) == x
  {
    var b := pkt[i..i + 4];
    assert pkt[i] == b[0] && pkt[i + 1] == b[1] && pkt[i + 2] == b[2] && pkt[i + 3] == b[3];
    DigitsOfU32(x);
  }

  /** Words are read in network order. */
  lemma WordsAreValues(s: seq<byte>, i: nat)
    ensures i + 2 <= |s| ==> U16At(s, i) == Value(s[i..i + 2])
    ensures i + 4 <= |s| ==> U32At(s, i) == Value(s[i..i + 4])
  {
    if i + 2 <= |s| {
      ValueLast([], s[i]);
      ValueLast([s[i]], s[i + 1]);
      assert [] + [s[i]] == [s[i]] && s[i..i + 2] == [s[i]] + [s[i + 1]];
    }
    if i + 4 <= |s| {
      ValueOfFour(s[i], s[i + 1], s[i + 2], s[i + 3]);
      assert s[i..i + 4] == [s[i], s[i + 1], s[i + 2], s[i + 3]];
    }
  }
}
