/** DHCPv6 options (section 21.1 of RFC 8415): code, length, data; and the messages built from them. */
module DhcpCodec {
  import opened Types
  import opened Bytes

  datatype DhcpOption = DhcpOption(code: u16, data: seq<byte>)

  const O_CLIENTID: u16 := 1
  const O_SERVERID: u16 := 2
  const O_IA_NA: u16 := 3
  const O_IAADDR: u16 := 5
  const O_STATUS: u16 := 13
  const O_RAPID_COMMIT: u16 := 14

  const T1: u32 := 3600
  const T2: u32 := 5400
  const PREFERRED: u32 := 7200
  const VALID: u32 := 86400

  /** `push_option`; the length field keeps only sixteen bits. */
  function OptionBytes(o: DhcpOption): seq<byte> {
    BytesOfU16(o.code) + BytesOfU16(|o.data| % 0x1_0000) + o.data
  }

  function Encode(os: seq<DhcpOption>): seq<byte> {
    if os == [] then [] else OptionBytes(os[0]) + Encode(os[1..])
  }

  lemma {:induction false} EncodeSnoc(os: seq<DhcpOption>, o: DhcpOption)
    ensures Encode(os + [o]) == Encode(os) + OptionBytes(o)
  {
    if os == [] {
      assert [o][1..] == [] && [] + [o] == [o];
    } else {
      assert (os + [o])[1..] == os[1..] + [o];
      EncodeSnoc(os[1..], o);
    }
  }

  /** `parse_options`: whole options from the front; a cut-off tail is dropped. */
  function Parse(s: seq<byte>): seq<DhcpOption>
    decreases |s|
  {
    if |s| < 4 || U16At(s, 2) > |s| - 4 then []
    else [DhcpOption(U16At(s, 0), s[4..4 + U16At(s, 2)])] + Parse(s[4 + U16At(s, 2)..])
  }

  method ParseOptions(s: seq<byte>) returns (out: seq<DhcpOption>)
    ensures out == Parse(s)
  {
    var data := s;
    out := [];
    while |data| >= 4
      invariant out + Parse(data) == Parse(s)
      decreases |data|
    {
      var code, len := U16At(data, 0), U16At(data, 2);
      if len > |data| - 4 { break; }
      var option := DhcpOption(code, data[4..4 + len]);
      ghost var rest := Parse(data[4 + len..]);
      assert out + ([option] + rest) == (out + [option]) + rest;
      out := out + [option];
      data := data[4 + len..];
    }
    assert Parse(data) == [];
  }

  predicate Fits(o: DhcpOption) {
    |o.data| <= 0xFFFF
  }

  /** The first option read from an encoding is the one written first, if its length fits the field. */
  lemma ParseFirst(o: DhcpOption, tail: seq<byte>)
    requires Fits(o)
    ensures Parse(OptionBytes(o) + tail) == [o] + Parse(tail)
  {
    var s := OptionBytes(o) + tail;
    assert s[0..2] == BytesOfU16(o.code) && s[2..4] == BytesOfU16(|o.data|);
    U16Here(s, 0, o.code);
    U16Here(s, 2, |o.data|);
    assert s[4..4 + |o.data|] == o.data && s[4 + |o.data|..] == tail;
  }

  /** Parsing inverts writing, for any options whose data fits the length field, before any tail too
      short to be an option. */
  lemma {:induction false} OptionsRoundTrip(os: seq<DhcpOption>, tail: seq<byte>)
    requires (forall o | o in os :: Fits(o)) && |tail| < 4
    ensures Parse(Encode(os) + tail) == os
  {
    if os == [] {
      assert Encode(os) + tail == tail;
    } else {
      var rest := os[1..];
      OptionsRoundTrip(rest, tail);
      ParseFirst(os[0], Encode(rest) + tail);
      EncodeSplit(os, tail);
    }
  }

  lemma EncodeSplit(os: seq<DhcpOption>, tail: seq<byte>)
    requires os != []
    ensures Encode(os) + tail == OptionBytes(os[0]) + (Encode(os[1..]) + tail)
  {
  }

  /** All of a list survives exactly when all of it fits. */
  lemma OptionsSurviveIff(os: seq<DhcpOption>)
    ensures Parse(Encode(os)) == os <==> forall o | o in os :: Fits(o)
  {
    ParsedFits(Encode(os));
    if forall o | o in os :: Fits(o) {
      OptionsRoundTrip(os, []);
      assert Encode(os) + [] == Encode(os);
    }
  }

  /** And one option survives exactly when its data fits the length field. */
  lemma OneOptionSurvivesIff(o: DhcpOption)
    ensures Parse(OptionBytes(o)) == [o] <==> Fits(o)
  {
    if Fits(o) {
      ParseFirst(o, []);
      assert OptionBytes(o) + [] == OptionBytes(o);
    } else {
      var s := OptionBytes(o);
      assert s[2..4] == BytesOfU16(|o.data| % 0x1_0000);
      U16Here(s, 2, |o.data| % 0x1_0000);
      assert |Parse(s)[0].data| < |o.data|;
    }
  }

  // ---------------------------------------------------------------- identity associations

  function IaHead(iaid: u32): (b: seq<byte>)
    ensures |b| == 12
  {
    BytesOfU32(iaid) + BytesOfU32(T1) + BytesOfU32(T2)
  }

  function IaAddr(addr: Addr): DhcpOption {
    DhcpOption(O_IAADDR, addr + BytesOfU32(PREFERRED) + BytesOfU32(VALID))
  }

  /** `push_ia_na`: the association with one address in it. */
  function IaNa(iaid: u32, addr: Addr): DhcpOption {
    DhcpOption(O_IA_NA, IaHead(iaid) + OptionBytes(IaAddr(addr)))
  }

  function Find(os: seq<DhcpOption>, code: u16): Option<DhcpOption> {
    if os == [] then None else if os[0].code == code then Some(os[0]) else Find(os[1..], code)
  }

  /** The association id a message's IA_NA carries; 0 if it is missing or too short. */
  function IaidOf(ia: Option<DhcpOption>): u32 {
    if ia.Some? && |ia.value.data| >= 4 then U32At(ia.value.data, 0) else 0
  }

  /** The address inside an IA_NA; a short address reads as unspecified. */
  function AddressIn(ia: Option<DhcpOption>): Option<Addr> {
    if ia.None? || |ia.value.data| < 12 then None
    else
      match Find(Parse(ia.value.data[12..]), O_IAADDR)
      case None => None
      case Some(a) => Some(if |a.data| >= 16 then a.data[..16] else UNSPECIFIED)
  }

  /** What the server writes into an IA_NA is what a reader of it decodes. */
  lemma IaNaRoundTrip(iaid: u32, addr: Addr)
    ensures IaidOf(Some(IaNa(iaid, addr))) == iaid
    ensures AddressIn(Some(IaNa(iaid, addr))) == Some(addr)
    ensures Fits(IaNa(iaid, addr))
  {
    IaidReadsBack(iaid, OptionBytes(IaAddr(addr)));
    InnerOption(iaid, IaAddr(addr));
    assert IaAddr(addr).data[..16] == addr;
  }

  lemma IaidReadsBack(iaid: u32, rest: seq<byte>)
    ensures U32At(IaHead(iaid) + rest, 0) == iaid
  {
    var d := IaHead(iaid) + rest;
    assert d[0..4] == BytesOfU32(iaid);
    U32Here(d, 0, iaid);
  }

  /** The one option inside an association reads back. */
  lemma InnerOption(iaid: u32, o: DhcpOption)
    requires Fits(o)
    ensures var d := IaHead(iaid) + OptionBytes(o); |d| >= 12 && Parse(d[12..]) == [o]
  {
    var d := IaHead(iaid) + OptionBytes(o);
    assert d[12..] == OptionBytes(o) + [];
    ParseFirst(o, []);
  }

  // ---------------------------------------------------------------- messages

  datatype Message = Message(kind: byte, txid: seq<byte>, options: seq<DhcpOption>)

  function MessageBytes(m: Message): seq<byte> {
    [m.kind] + m.txid + Encode(m.options)
  }

  /** A datagram of at least four bytes: kind, transaction id, options. */
  function ReadMessage(s: seq<byte>): Option<Message> {
    if |s| < 4 then None else Some(Message(s[0], s[1..4], Parse(s[4..])))
  }

  lemma MessageRoundTrip(m: Message)
    requires |m.txid| == 3 && forall o | o in m.options :: Fits(o)
    ensures ReadMessage(MessageBytes(m)) == Some(m)
  {
    var s := MessageBytes(m);
    OptionsRoundTrip(m.options, []);
    assert s[1..4] == m.txid && s[4..] == Encode(m.options) + [];
  }

  /** Whatever was read fits. */
  lemma {:induction false} ParsedFits(s: seq<byte>)
    ensures forall o | o in Parse(s) :: Fits(o)
    decreases |s|
  {
    if |s| >= 4 && U16At(s, 2) <= |s| - 4 {
      ParsedFits(s[4 + U16At(s, 2)..]);
    }
  }

  lemma {:induction false} FindMember(os: seq<DhcpOption>, code: u16)
    requires Find(os, code).Some?
    ensures Find(os, code).value in os
  {
    if os[0].code != code { FindMember(os[1..], code); }
  }
}
