/** Session ids: the hexadecimal spelling of a five-tuple, and its decoding. */
module SessionId {
  import opened Types
  import opened Bytes

  function HexDigit(n: byte): char
    requires n < 16
  {
    "0123456789abcdef"[n]
  }

  /** What `from_str_radix(_, 16)` makes of one digit; either case will do. */
  function DigitValue(c: char): (v: Option<byte>)
    ensures v.Some? ==> v.value < 16
  {
    if '0' <= c <= '9' then Some((c - '0') as int)
    else if 'a' <= c <= 'f' then Some((c - 'a') as int + 10)
    else if 'A' <= c <= 'F' then Some((c - 'A') as int + 10)
    else None
  }

  /** Two characters as a byte; a plus sign before a single digit is accepted too. */
  function PairValue(c: char, d: char): Option<byte> {
    if DigitValue(d).None? then None
    else if c == '+' then DigitValue(d)
    else if DigitValue(c).None? then None
    else
      var hi: int, lo: int := DigitValue(c).value, DigitValue(d).value;
      Some(hi * 16 + lo)
  }

  function Hex(bs: seq<byte>): (s: string)
    ensures |s| == 2 * |bs| && |s| % 2 == 0
  {
    if bs == [] then "" else Hex(bs[..|bs| - 1]) + [HexDigit(bs[|bs| - 1] / 16), HexDigit(bs[|bs| - 1] % 16)]
  }

  /** The bytes an even-length string spells, if every pair does. */
  function Unhex(s: string): (r: Option<seq<byte>>)
    requires |s| % 2 == 0
    ensures r.Some? ==> |r.value| * 2 == |s|
  {
    if s == "" then Some([])
    else
      var front, last := Unhex(s[..|s| - 2]), PairValue(s[|s| - 2], s[|s| - 1]);
      if front.None? || last.None? then None else Some(front.value + [last.value])
  }

  lemma DigitRoundTrip(n: byte)
    requires n < 16
    ensures DigitValue(HexDigit(n)) == Some(n) && HexDigit(n) != '+'
  {
  }

  lemma PairRoundTrip(b: byte)
    ensures PairValue(HexDigit(b / 16), HexDigit(b % 16)) == Some(b)
  {
    DigitRoundTrip(b / 16);
    DigitRoundTrip(b % 16);
  }

  lemma HexSnoc(bs: seq<byte>, b: byte)
    ensures Hex(bs + [b]) == Hex(bs) + [HexDigit(b / 16), HexDigit(b % 16)]
  {
    assert (bs + [b])[..|bs|] == bs;
  }

  lemma UnhexSnoc(s: string, c: char, d: char)
    requires |s| % 2 == 0
    ensures var (front, last) := (Unhex(s), PairValue(c, d));
            Unhex(s + [c, d]) == if front.None? || last.None? then None else Some(front.value + [last.value])
  {
    assert (s + [c, d])[..|s|] == s;
  }

  lemma UnhexHexSnoc(bs: seq<byte>, b: byte)
    requires Unhex(Hex(bs)) == Some(bs)
    ensures Unhex(Hex(bs + [b])) == Some(bs + [b])
  {
    HexSnoc(bs, b);
    PairRoundTrip(b);
    UnhexSnoc(Hex(bs), HexDigit(b / 16), HexDigit(b % 16));
  }

  lemma {:induction false} UnhexHex(bs: seq<byte>)
    ensures Unhex(Hex(bs)) == Some(bs)
  {
    if bs != [] {
      var front, b := bs[..|bs| - 1], bs[|bs| - 1];
      assert bs == front + [b];
      UnhexHex(front);
      UnhexHexSnoc(front, b);
    }
  }

  // ---------------------------------------------------------------- the spellings that come back

  /** A digit the way the encoder writes it. */
  predicate Lower(c: char) {
    '0' <= c <= '9' || 'a' <= c <= 'f'
  }

  predicate AllLower(s: string) {
    forall i | 0 <= i < |s| :: Lower(s[i])
  }

  lemma DigitComesBackIff(c: char)
    requires DigitValue(c).Some?
    ensures HexDigit(DigitValue(c).value) == c <==> Lower(c)
  {
    if Lower(c) {
      LowerDigit(DigitValue(c).value, c);
    } else {
      assert Lower(HexDigit(DigitValue(c).value));
    }
  }

  lemma LowerDigit(n: byte, c: char)
    requires Lower(c) && DigitValue(c) == Some(n)
    ensures HexDigit(n) == c
  {
    if c <= '9' {
      assert c == '0' + n as char;
    } else {
      assert c == 'a' + (n - 10) as char;
    }
  }

  lemma PairComesBackIff(c: char, d: char)
    requires PairValue(c, d).Some?
    ensures var b := PairValue(c, d).value;
            [HexDigit(b / 16), HexDigit(b % 16)] == [c, d] <==> Lower(c) && Lower(d)
  {
    var b := PairValue(c, d).value;
    DigitComesBackIff(d);
    if c == '+' {
      DigitRoundTrip(b / 16);
    } else {
      DigitComesBackIff(c);
      assert b / 16 == DigitValue(c).value && b % 16 == DigitValue(d).value;
    }
  }

  lemma SnocEqual(s: string, t: string, c: char, d: char, c': char, d': char)
    ensures s + [c, d] == t + [c', d'] <==> s == t && [c, d] == [c', d']
  {
    if s + [c, d] == t + [c', d'] {
      assert s == (s + [c, d])[..|s|] && t == (t + [c', d'])[..|t|];
      assert [c, d] == (s + [c, d])[|s|..] && [c', d'] == (t + [c', d'])[|t|..];
    }
  }

  lemma {:induction false} HexUnhexIff(s: string)
    requires |s| % 2 == 0 && Unhex(s).Some?
    ensures Hex(Unhex(s).value) == s <==> AllLower(s)
  {
    if s != "" {
      var front, c, d := s[..|s| - 2], s[|s| - 2], s[|s| - 1];
      assert s == front + [c, d];
      UnhexSnoc(front, c, d);
      HexUnhexIff(front);
      PairComesBackIff(c, d);
      var b := PairValue(c, d).value;
      HexSnoc(Unhex(front).value, b);
      SnocEqual(Hex(Unhex(front).value), front, HexDigit(b / 16), HexDigit(b % 16), c, d);
      AllLowerSnoc(front, c, d);
    }
  }

  lemma AllLowerSnoc(s: string, c: char, d: char)
    ensures AllLower(s + [c, d]) <==> AllLower(s) && Lower(c) && Lower(d)
  {
    var t := s + [c, d];
    if AllLower(t) {
      assert t[|s|] == c && t[|s| + 1] == d;
      forall i | 0 <= i < |s| ensures Lower(s[i]) { assert t[i] == s[i]; }
    }
  }

  lemma {:induction false} HexFirst(bs: seq<byte>)
    requires bs != []
    ensures Hex(bs)[0] == HexDigit(bs[0] / 16)
  {
    if |bs| > 1 { HexFirst(bs[..|bs| - 1]); }
  }

  lemma {:induction false} PlusForZero(s: string)
    requires |s| % 2 == 0 && s != "" && s[0] == '0'
    ensures Unhex(s[0 := '+']) == Unhex(s)
  {
    var t := s[0 := '+'];
    if |s| > 2 {
      PlusForZero(s[..|s| - 2]);
      assert t[..|s| - 2] == s[..|s| - 2][0 := '+'];
    } else {
      assert t[..0] == s[..0];
    }
  }

  // ---------------------------------------------------------------- five-tuples

  const ID_LENGTH := 76

  function Fields(k: FiveTuple): (bs: seq<byte>)
    ensures |bs| == 38
  {
    [k.family, k.proto] + k.srcIp + k.dstIp + BytesOfU16(k.srcPort) + BytesOfU16(k.dstPort)
  }

  function FromFields(bs: seq<byte>): FiveTuple
    requires |bs| == 38
  {
    FiveTuple(bs[0], bs[1], bs[2..18], bs[18..34], U16At(bs, 34), U16At(bs, 36))
  }

  function IdOf(k: FiveTuple): (s: string)
    ensures |s| == ID_LENGTH
  {
    Hex(Fields(k))
  }

  function KeyOf(id: string): Option<FiveTuple> {
    if |id| != ID_LENGTH || Unhex(id).None? then None else Some(FromFields(Unhex(id).value))
  }

  /** `session_id_full`: two digits a byte, pushed onto a growing string. */
  method SessionIdFull(k: FiveTuple) returns (s: string)
    ensures s == IdOf(k)
  {
    var bs := Fields(k);
    s := "";
    for i := 0 to |bs|
      invariant s == Hex(bs[..i])
    {
      assert bs[..i + 1][..i] == bs[..i];
      s := s + [HexDigit(bs[i] / 16), HexDigit(bs[i] % 16)];
    }
    assert bs[..|bs|] == bs;
  }

  // ---------------------------------------------------------------- decoding text

  /** The text of an id is taken as the string of its UTF-8 bytes. Cutting it inside a character panics. */
  datatype Decoded = Panics | Refused | Found(key: FiveTuple)

  predicate Continues(c: char) {
    0x80 <= c as int < 0xC0
  }

  predicate Boundary(id: string, j: nat)
    requires j <= |id|
  {
    j == 0 || j == |id| || !Continues(id[j])
  }

  /** The two bytes of a pair do not begin and end with characters. */
  predicate Splits(id: string, i: nat)
    requires 2 * i + 2 <= |id|
  {
    !Boundary(id, 2 * i) || !Boundary(id, 2 * i + 2)
  }

  function PairAt(id: string, i: nat): Option<byte>
    requires 2 * i + 2 <= |id|
  {
    PairValue(id[2 * i], id[2 * i + 1])
  }

  /** The order in which the pairs are read: the two addresses in step, the ports, family and protocol last. */
  function NthPair(n: nat): (i: nat)
    requires n < 38
    ensures i < 38
  {
    if n < 32 then (if n % 2 == 0 then 2 + n / 2 else 18 + n / 2)
    else if n < 36 then n + 2
    else n - 36
  }

  function DecodeFrom(id: string, n: nat): Decoded
    requires |id| == ID_LENGTH
    decreases 38 - n
  {
    if n >= 38 then (if KeyOf(id).Some? then Found(KeyOf(id).value) else Refused)
    else if Splits(id, NthPair(n)) then Panics
    else if PairAt(id, NthPair(n)).None? then Refused
    else DecodeFrom(id, n + 1)
  }

  function Decode(id: string): Decoded {
    if |id| != ID_LENGTH then Refused else DecodeFrom(id, 0)
  }

  /** `session_key_from_full_id`: the first pair that is bad, in the order of reading, decides. */
  method SessionKeyFromFullId(id: string) returns (r: Decoded)
    ensures r == Decode(id)
  {
    if |id| != ID_LENGTH { return Refused; }
    var bs: seq<byte> := seq(38, _ => 0);
    for n := 0 to 38
      invariant |bs| == 38 && DecodeFrom(id, n) == Decode(id)
      invariant ReadSoFar(id, bs, n)
    {
      var i := NthPair(n);
      if Splits(id, i) { return Panics; }
      var b := PairAt(id, i);
      if b.None? { return Refused; }
      OneMorePair(id, bs, n, b.value);
      bs := bs[i := b.value];
    }
    AllPairsRead(id, bs);
    r := Found(FromFields(bs));
  }

  predicate ReadSoFar(id: string, bs: seq<byte>, n: nat)
    requires |id| == ID_LENGTH && |bs| == 38 && n <= 38
  {
    forall m | 0 <= m < n :: PairAt(id, NthPair(m)) == Some(bs[NthPair(m)])
  }

  lemma OneMorePair(id: string, bs: seq<byte>, n: nat, b: byte)
    requires |id| == ID_LENGTH && |bs| == 38 && n < 38 && ReadSoFar(id, bs, n) && PairAt(id, NthPair(n)) == Some(b)
    ensures ReadSoFar(id, bs[NthPair(n) := b], n + 1)
  {
    forall m | 0 <= m < n ensures NthPair(m) != NthPair(n) { ReadOnce(m, n); }
  }

  lemma ReadOnce(m: nat, n: nat)
    requires m < n < 38
    ensures NthPair(m) != NthPair(n)
  {
  }

  lemma AllPairsRead(id: string, bs: seq<byte>)
    requires |id| == ID_LENGTH && |bs| == 38 && ReadSoFar(id, bs, 38)
    ensures KeyOf(id) == Some(FromFields(bs))
  {
    forall i | 0 <= i < 38 ensures PairAt(id, i) == Some(bs[i]) { assert NthPair(WhenRead(i)) == i; }
    UnhexByPairs(id, bs);
  }

  function WhenRead(i: nat): (n: nat)
    requires i < 38
    ensures n < 38 && NthPair(n) == i
  {
    if i < 2 then i + 36 else if i < 18 then 2 * (i - 2) else if i < 34 then 2 * (i - 18) + 1 else i - 2
  }

  /** A string whose every pair spells a byte spells those bytes. */
  lemma {:induction false} UnhexByPairs(s: string, bs: seq<byte>)
    requires |s| == 2 * |bs| && forall i | 0 <= i < |bs| :: PairAt(s, i) == Some(bs[i])
    ensures |s| % 2 == 0 && Unhex(s) == Some(bs)
  {
    if bs != [] {
      var front, last := s[..|s| - 2], |bs| - 1;
      forall i | 0 <= i < last ensures PairAt(front, i) == Some(bs[..last][i]) { assert PairAt(s, i) == Some(bs[i]); }
      UnhexByPairs(front, bs[..last]);
      assert PairAt(s, last) == Some(bs[last]) && bs == bs[..last] + [bs[last]];
    }
  }

  lemma {:induction false} UnhexPairs(s: string, i: nat)
    requires |s| % 2 == 0 && Unhex(s).Some? && 2 * i + 2 <= |s|
    ensures PairAt(s, i).Some?
  {
    if 2 * i + 2 < |s| {
      var front := s[..|s| - 2];
      UnhexPairs(front, i);
      assert PairAt(front, i) == PairAt(s, i);
    }
  }

  /** Where every pair spells a byte no pair splits a character. */
  lemma SpelledPairsAreWhole(id: string, i: nat)
    requires |id| == ID_LENGTH && i < 38 && Unhex(id).Some?
    ensures PairAt(id, i).Some? && !Splits(id, i)
  {
    UnhexPairs(id, i);
    if i < 37 { UnhexPairs(id, i + 1); }
  }

  lemma {:induction false} SpelledDecodes(id: string, n: nat)
    requires |id| == ID_LENGTH && n <= 38 && Unhex(id).Some?
    ensures DecodeFrom(id, n) == Found(KeyOf(id).value)
    decreases 38 - n
  {
    if n < 38 {
      SpelledPairsAreWhole(id, NthPair(n));
      SpelledDecodes(id, n + 1);
    }
  }

  lemma {:induction false} FoundSpells(id: string, n: nat)
    requires |id| == ID_LENGTH && DecodeFrom(id, n).Found?
    ensures KeyOf(id) == Some(DecodeFrom(id, n).key)
    decreases 38 - n
  {
    if n < 38 { FoundSpells(id, n + 1); }
  }

  /** Decoding text finds a key exactly when the text spells it. */
  lemma DecodeFindsIff(id: string, k: FiveTuple)
    ensures Decode(id) == Found(k) <==> KeyOf(id) == Some(k)
  {
    if |id| == ID_LENGTH {
      if Unhex(id).Some? { SpelledDecodes(id, 0); }
      if Decode(id).Found? { FoundSpells(id, 0); }
    }
  }

  /** From the pair read `n`th on, some pair splits a character and all those read before it spell bytes. */
  ghost predicate SplitAhead(id: string, n: nat)
    requires |id| == ID_LENGTH
  {
    exists i: nat | n <= i < 38 :: Splits(id, NthPair(i)) && SpelledBetween(id, n, i)
  }

  predicate SpelledBetween(id: string, n: nat, i: nat)
    requires |id| == ID_LENGTH && i <= 38
  {
    forall m | n <= m < i :: PairAt(id, NthPair(m)).Some?
  }

  lemma {:induction false} PanicsFromIff(id: string, n: nat)
    requires |id| == ID_LENGTH && n <= 38
    ensures DecodeFrom(id, n).Panics? <==> SplitAhead(id, n)
    decreases 38 - n
  {
    if n < 38 {
      PanicsFromIff(id, n + 1);
      if Splits(id, NthPair(n)) {
        assert SpelledBetween(id, n, n);
      } else if PairAt(id, NthPair(n)).Some? {
        assert forall i: nat | n < i <= 38 :: SpelledBetween(id, n, i) <==> SpelledBetween(id, n + 1, i);
      }
    }
  }

  /** And panics exactly when an id of the right length has a character across the edge of a pair, before any
      pair that is whole and spells no byte. */
  lemma DecodePanicsIff(id: string)
    ensures Decode(id).Panics? <==> |id| == ID_LENGTH && SplitAhead(id, 0)
  {
    if |id| == ID_LENGTH { PanicsFromIff(id, 0); }
  }

  /** Decoding gives back the key, so ids are unique. */
  lemma SessionIdRoundTrip(k: FiveTuple)
    ensures KeyOf(IdOf(k)) == Some(k)
  {
    UnhexHex(Fields(k));
    FieldsRoundTrip(k);
  }

  lemma FieldsRoundTrip(k: FiveTuple)
    ensures FromFields(Fields(k)) == k
  {
    var bs := Fields(k);
    assert bs[34..36] == BytesOfU16(k.srcPort) && bs[36..38] == BytesOfU16(k.dstPort);
    U16Here(bs, 34, k.srcPort);
    U16Here(bs, 36, k.dstPort);
    assert bs[2..18] == k.srcIp;
    assert bs[18..34] == k.dstIp;
  }

  lemma SessionIdsUnique(k: FiveTuple, k': FiveTuple)
    requires IdOf(k) == IdOf(k')
    ensures k == k'
  {
    SessionIdRoundTrip(k);
    SessionIdRoundTrip(k');
  }

  lemma FieldsFromFields(bs: seq<byte>)
    requires |bs| == 38
    ensures Fields(FromFields(bs)) == bs
  {
    PortBytes(bs, 34);
    PortBytes(bs, 36);
    var k := FromFields(bs);
    assert bs == [bs[0], bs[1]] + bs[2..18] + bs[18..34] + [bs[34], bs[35]] + [bs[36], bs[37]];
  }

  lemma PortBytes(bs: seq<byte>, i: nat)
    requires i + 2 <= |bs|
    ensures BytesOfU16(U16At(bs, i)) == [bs[i], bs[i + 1]]
  {
  }

  /** Decoding is a left inverse only. Of the strings that decode, exactly those in lower-case digits are
      the id of what they decode to. */
  lemma IdComesBackIff(id: string)
    requires KeyOf(id).Some?
    ensures IdOf(KeyOf(id).value) == id <==> AllLower(id)
  {
    FieldsFromFields(Unhex(id).value);
    HexUnhexIff(id);
  }

  /** One of the others: a plus sign for a leading zero. */
  lemma OtherSpellings(k: FiveTuple)
    requires k.family < 16
    ensures IdOf(k)[0 := '+'] != IdOf(k) && KeyOf(IdOf(k)[0 := '+']) == Some(k)
  {
    SessionIdRoundTrip(k);
    HexFirst(Fields(k));
    PlusForZero(IdOf(k));
    assert IdOf(k)[0 := '+'][0] == '+';
  }

  /** What an id spells, in order: family, protocol, the two addresses, the two ports. */
  lemma IdSpells(k: FiveTuple)
    ensures Unhex(IdOf(k)).Some?
    ensures var bs := Unhex(IdOf(k)).value;
            && |bs| == 38 && bs[0] == k.family && bs[1] == k.proto && bs[2..18] == k.srcIp && bs[18..34] == k.dstIp
            && U16At(bs, 34) == k.srcPort && U16At(bs, 36) == k.dstPort
  {
    UnhexHex(Fields(k));
    FieldsRoundTrip(k);
  }

  /** The order in which a bad pair is met: each byte of the source address just before the same byte of the
      destination, then the ports, then family and protocol. */
  lemma ReadingOrder(k: nat)
    requires k < 16
    ensures WhenRead(18 + k) == WhenRead(2 + k) + 1 && (k < 15 ==> WhenRead(2 + k + 1) == WhenRead(18 + k) + 1)
    ensures WhenRead(2) == 0 && WhenRead(34) == WhenRead(33) + 1
    ensures WhenRead(34) < WhenRead(35) < WhenRead(36) < WhenRead(37) < WhenRead(0) < WhenRead(1)
  {
  }

  /** A digit spells its value: 0 to 9, then a to f from ten on, in either case. */
  lemma DigitIff(c: char, n: byte)
    ensures DigitValue(c) == Some(n)
            <==> || (c in "0123456789" && '0' <= c && n == (c - '0') as int)
                 || (c in "abcdef" && 'a' <= c && n == (c - 'a') as int + 10)
                 || (c in "ABCDEF" && 'A' <= c && n == (c - 'A') as int + 10)
  {
  }
}
