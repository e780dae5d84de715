/** The DHCPv6 server seen from its datagrams (section 8 of RFC 8415): what each message does to the leases and
    what its answer says, by the numbers on the wire. */
module DhcpMessages {
  import opened Types
  import opened Bytes
  import opened DhcpCodec
  import opened Dhcp
  import opened DhcpLeases

  // ---------------------------------------------------------------- reading a request

  /** The first option with a code. */
  predicate FirstWith(os: seq<DhcpOption>, code: u16, i: nat) {
    i < |os| && os[i].code == code && forall j | 0 <= j < i :: os[j].code != code
  }

  lemma {:induction false} FindIff(os: seq<DhcpOption>, code: u16)
    ensures var r := DhcpCodec.Find(os, code);
            && (r.None? <==> forall i | 0 <= i < |os| :: os[i].code != code)
            && (r.Some? ==> exists i: nat :: FirstWith(os, code, i) && r.value == os[i])
  {
    if os != [] {
      if os[0].code == code {
        assert FirstWith(os, code, 0);
      } else {
        FindIff(os[1..], code);
        if DhcpCodec.Find(os, code).Some? {
          var i: nat :| FirstWith(os[1..], code, i) && DhcpCodec.Find(os, code).value == os[1..][i];
          assert FirstWith(os, code, i + 1);
        } else {
          assert forall i | 0 < i < |os| :: os[i] == os[1..][i - 1];
        }
      }
    }
  }

  /** The association a client sends: its id, two times, and the options inside. */
  function AskedIa(iaid: u32, t1: u32, t2: u32, inner: seq<DhcpOption>): DhcpOption {
    DhcpOption(3, BytesOfU32(iaid) + BytesOfU32(t1) + BytesOfU32(t2) + Encode(inner))
  }

  /** An address inside an association: the address, two lifetimes, and anything after. */
  function AskedAddr(addr: Addr, rest: seq<byte>): DhcpOption {
    DhcpOption(5, addr + rest)
  }

  lemma AskedIaReadsBack(iaid: u32, t1: u32, t2: u32, inner: seq<DhcpOption>)
    requires forall o | o in inner :: Fits(o)
    ensures var ia := Some(AskedIa(iaid, t1, t2, inner));
            && IaidOf(ia) == iaid
            && (AddressIn(ia).None? <==> forall i | 0 <= i < |inner| :: inner[i].code != 5)
            && forall i: nat, addr: Addr, rest | FirstWith(inner, 5, i) && inner[i] == AskedAddr(addr, rest)
                 :: AddressIn(ia) == Some(addr)
    ensures forall i: nat | FirstWith(inner, 5, i) && |inner[i].data| < 16 ::
              AddressIn(Some(AskedIa(iaid, t1, t2, inner))) == Some(UNSPECIFIED)
  {
    var d := AskedIa(iaid, t1, t2, inner).data;
    assert d[0..4] == BytesOfU32(iaid) && d[12..] == Encode(inner) + [];
    U32Here(d, 0, iaid);
    OptionsRoundTrip(inner, []);
    FindIff(inner, 5);
    forall i: nat, addr: Addr, rest | FirstWith(inner, 5, i) && inner[i] == AskedAddr(addr, rest)
      ensures AddressIn(Some(AskedIa(iaid, t1, t2, inner))) == Some(addr)
    {
      var j: nat :| FirstWith(inner, 5, j) && DhcpCodec.Find(inner, 5).value == inner[j];
      OnlyFirst(inner, 5, i, j);
      assert (addr + rest)[..16] == addr;
    }
    forall i: nat | FirstWith(inner, 5, i) && |inner[i].data| < 16
      ensures AddressIn(Some(AskedIa(iaid, t1, t2, inner))) == Some(UNSPECIFIED)
    {
      var j: nat :| FirstWith(inner, 5, j) && DhcpCodec.Find(inner, 5).value == inner[j];
      OnlyFirst(inner, 5, i, j);
    }
  }

  /** An association that is cut off has no address before its twelfth byte, and no id before its fourth. */
  lemma CutIaReadsBack(iaid: u32, t1: u32, t2: u32, inner: seq<DhcpOption>, n: nat)
    requires n <= |AskedIa(iaid, t1, t2, inner).data|
    ensures var cut := Some(DhcpOption(3, AskedIa(iaid, t1, t2, inner).data[..n]));
            IaidOf(cut) == (if n < 4 then 0 else iaid) && (n < 12 ==> AddressIn(cut).None?)
  {
    var d := AskedIa(iaid, t1, t2, inner).data;
    if n >= 4 {
      assert d[..n][0..4] == BytesOfU32(iaid);
      U32Here(d[..n], 0, iaid);
    }
  }

  lemma OnlyFirst(os: seq<DhcpOption>, code: u16, i: nat, j: nat)
    requires FirstWith(os, code, i) && FirstWith(os, code, j)
    ensures i == j
  {
  }

  lemma RequestOfMessage(m: Message)
    requires |m.txid| == 3 && forall o | o in m.options :: Fits(o)
    ensures var q := ReadRequest(MessageBytes(m));
            var id, ia := DhcpCodec.Find(m.options, 1), DhcpCodec.Find(m.options, 3);
            q == if id.None? then None else
                 Some(Request(m.kind, m.txid, id.value.data, IaidOf(ia), AddressIn(ia),
                              DhcpCodec.Find(m.options, 14).Some?))
  {
    MessageRoundTrip(m);
  }

  /** What is read from a datagram is what its sender put there: kind, transaction id, the first client id, the
      first association, and whether a rapid commit is asked for. Without a client id nothing is. */
  lemma RequestReadsBack(kind: byte, txid: seq<byte>, os: seq<DhcpOption>)
    requires |txid| == 3 && forall o | o in os :: Fits(o)
    ensures var q := ReadRequest(MessageBytes(Message(kind, txid, os)));
            && (q.None? <==> forall i | 0 <= i < |os| :: os[i].code != 1)
            && (q.Some? ==>
                  && q.value.kind == kind && q.value.txid == txid
                  && (exists i: nat :: FirstWith(os, 1, i) && q.value.client == os[i].data)
                  && (q.value.rapid <==> exists i | 0 <= i < |os| :: os[i].code == 14)
                  && q.value.iaid == IaidOf(DhcpCodec.Find(os, 3))
                  && q.value.requested == AddressIn(DhcpCodec.Find(os, 3)))
  {
    RequestOfMessage(Message(kind, txid, os));
    FindIff(os, 1);
    FindIff(os, 14);
  }

  // ---------------------------------------------------------------- what a message does

  /** A solicit, request, renew or rebind with an association; but the last three not for an address off the
      link. */
  predicate Asks(pool: Pool, data: seq<byte>)
    requires pool.prefixLen <= 64 && ReadRequest(data).Some? && data != []
  {
    var r := ReadRequest(data).value;
    && (data[0] == 1 || data[0] == 3 || data[0] == 5 || data[0] == 6) && r.iaid != 0
    && (data[0] != 1 && r.requested.Some? && r.requested.value != UNSPECIFIED ==> InPool(pool, r.requested.value))
  }

  /** A release or decline with an association. */
  predicate GivesUp(data: seq<byte>)
    requires ReadRequest(data).Some? && data != []
  {
    (data[0] == 8 || data[0] == 9) && ReadRequest(data).value.iaid != 0
  }

  /** What a datagram does: `a` is the address granted to it. */
  ghost predicate DatagramStep(pool: Pool, s: Book, data: seq<byte>, now: nat, a: Addr, s': Book)
    requires pool.prefixLen <= 64
  {
    if ReadRequest(data).None? then s' == s else Handles(pool, s, ReadRequest(data).value, now, s', a)
  }

  /** Each datagram asks for its client, gives up for its client, or does nothing. */
  lemma DatagramIsOp(pool: Pool, s: Book, data: seq<byte>, now: nat, a: Addr, s': Book)
    requires pool.prefixLen <= 64 && DatagramStep(pool, s, data, now, a, s')
    ensures ReadRequest(data).None? ==> s' == s
    ensures ReadRequest(data).Some? ==> |data| >= 4
    ensures ReadRequest(data).Some? ==>
              var c := ReadRequest(data).value.Key();
              if Asks(pool, data) then OpStep(pool, s, Ask(c, now, a), s')
              else if GivesUp(data) then OpStep(pool, s, GiveUp(c, now), s')
              else s' == s
  {
  }

  /** A release or decline frees the lease of its client and association, and no other. */
  lemma ReleaseFrees(pool: Pool, s: Book, data: seq<byte>, now: nat, a: Addr, s': Book)
    requires pool.prefixLen <= 64 && DatagramStep(pool, s, data, now, a, s')
    requires ReadRequest(data).Some? && (data[0] == 8 || data[0] == 9) && ReadRequest(data).value.iaid != 0
    ensures var r := ReadRequest(data).value;
            && (r.client, r.iaid) !in s'.leases && s'.next == s.next
            && forall k | k != (r.client, r.iaid) ::
                 (k in s'.leases <==> k in s.leases) && (k in s.leases ==> s'.leases[k] == s.leases[k])
  {
    DatagramIsOp(pool, s, data, now, a, s');
  }

  /** No other datagram takes away or changes an unexpired lease. */
  lemma OnlyReleaseTakesAway(pool: Pool, s: Book, data: seq<byte>, now: nat, a: Addr, s': Book, k: Client)
    requires pool.prefixLen <= 64 && DatagramStep(pool, s, data, now, a, s')
    requires k in s.leases && now < s.leases[k].validUntil
    ensures (k in s'.leases && s'.leases[k] == s.leases[k])
            || (ReadRequest(data).Some? && GivesUp(data) && ReadRequest(data).value.Key() == k)
  {
    DatagramIsOp(pool, s, data, now, a, s');
    if ReadRequest(data).Some? && Asks(pool, data) {
      AskKeepsLease(pool, s, ReadRequest(data).value.Key(), now, s', a, k);
    }
  }

  // ---------------------------------------------------------------- runs of datagrams

  datatype Datagram = Datagram(data: seq<byte>, now: nat, granted: Addr)

  ghost predicate DatagramAt(pool: Pool, books: seq<Book>, ds: seq<Datagram>, i: nat)
    requires pool.prefixLen <= 64 && |books| == |ds| + 1 && i < |ds|
  {
    DatagramStep(pool, books[i], ds[i].data, ds[i].now, ds[i].granted, books[i + 1])
  }

  /** A run of the server from no leases, on a clock that never goes back. */
  ghost predicate IsDatagramRun(pool: Pool, books: seq<Book>, ds: seq<Datagram>) {
    && pool.Valid() && |books| == |ds| + 1 && books[0].leases == map[]
    && (forall i | 0 <= i < |ds| :: DatagramAt(pool, books, ds, i))
    && (forall i, j | 0 <= i <= j < |ds| :: ds[i].now <= ds[j].now)
  }

  lemma SafeLater(pool: Pool, leases: Leases, now: nat, later: nat)
    requires pool.Valid() && Safe(pool, leases, now) && now <= later
    ensures Safe(pool, leases, later)
  {
  }

  lemma DatagramKeepsSafe(pool: Pool, s: Book, d: Datagram, s': Book, now: nat)
    requires pool.Valid() && Safe(pool, s.leases, d.now) && d.now <= now
    requires DatagramStep(pool, s, d.data, d.now, d.granted, s')
    ensures Safe(pool, s'.leases, now)
  {
    DatagramIsOp(pool, s, d.data, d.now, d.granted, s');
    SafeLater(pool, s.leases, d.now, now);
    if ReadRequest(d.data).Some? {
      var c := ReadRequest(d.data).value.Key();
      if Asks(pool, d.data) {
        OpKeepsSafe(pool, s, Ask(c, d.now, d.granted), s', now);
      } else if GivesUp(d.data) {
        OpKeepsSafe(pool, s, GiveUp(c, d.now), s', now);
      }
    }
  }

  lemma DatagramOfRunKeepsSafe(pool: Pool, books: seq<Book>, ds: seq<Datagram>, i: nat, now: nat)
    requires IsDatagramRun(pool, books, ds) && i < |ds| && ds[i].now <= now
    requires Safe(pool, books[i].leases, ds[i].now)
    ensures Safe(pool, books[i + 1].leases, now)
  {
    DatagramRunStep(pool, books, ds, i);
    DatagramKeepsSafe(pool, books[i], ds[i], books[i + 1], now);
  }

  lemma DatagramRunStep(pool: Pool, books: seq<Book>, ds: seq<Datagram>, i: nat)
    requires IsDatagramRun(pool, books, ds) && i < |ds|
    ensures DatagramStep(pool, books[i], ds[i].data, ds[i].now, ds[i].granted, books[i + 1])
    ensures i > 0 ==> ds[i - 1].now <= ds[i].now
  {
    assert DatagramAt(pool, books, ds, i);
  }

  /** After any datagrams whatever, and at any later time, no two unexpired leases share an address and every
      leased address is of the pool. */
  lemma {:induction false} DatagramsKeepSafe(pool: Pool, books: seq<Book>, ds: seq<Datagram>, n: nat, now: nat)
    requires IsDatagramRun(pool, books, ds) && n <= |ds| && (n > 0 ==> ds[n - 1].now <= now)
    ensures Safe(pool, books[n].leases, now)
    decreases n
  {
    if n == 0 {
      NoLeasesSafe(pool, books[0].leases, now);
    } else {
      DatagramsKeepSafe(pool, books, ds, n - 1, ds[n - 1].now);
      DatagramOfRunKeepsSafe(pool, books, ds, n - 1, now);
    }
  }

  /** The datagram comes before `until` and does not give up the lease of `k`. */
  predicate Spares(d: Datagram, k: Client, until: nat) {
    d.now < until && (ReadRequest(d.data).Some? && GivesUp(d.data) ==> ReadRequest(d.data).value.Key() != k)
  }

  lemma {:induction false} LeaseStaysThrough(
    pool: Pool, books: seq<Book>, ds: seq<Datagram>, i: nat, n: nat, k: Client, lease: Lease)
    requires IsDatagramRun(pool, books, ds) && i <= n <= |ds| && k in books[i].leases && books[i].leases[k] == lease
    requires forall j | i <= j < n :: Spares(ds[j], k, lease.validUntil)
    ensures k in books[n].leases && books[n].leases[k] == lease
    decreases n
  {
    if i < n {
      LeaseStaysThrough(pool, books, ds, i, n - 1, k, lease);
      DatagramRunStep(pool, books, ds, n - 1);
      assert Spares(ds[n - 1], k, lease.validUntil);
      OnlyReleaseTakesAway(pool, books[n - 1], ds[n - 1].data, ds[n - 1].now, ds[n - 1].granted, books[n], k);
    }
  }

  /** The datagram asks for client `k`. */
  predicate AsksFor(pool: Pool, d: Datagram, k: Client)
    requires pool.prefixLen <= 64
  {
    ReadRequest(d.data).Some? && Asks(pool, d.data) && ReadRequest(d.data).value.Key() == k
  }

  /** A client that was granted an address and asks again before its lease runs out, having released nothing in
      between, is granted the same address, whatever other datagrams came. */
  lemma SameAddressForDatagrams(pool: Pool, books: seq<Book>, ds: seq<Datagram>, i: nat, n: nat, k: Client)
    requires IsDatagramRun(pool, books, ds) && i < n < |ds|
    requires AsksFor(pool, ds[i], k) && AsksFor(pool, ds[n], k) && ds[i].granted != UNSPECIFIED
    requires forall j | i < j < n :: ReadRequest(ds[j].data).Some? && GivesUp(ds[j].data) ==>
               ReadRequest(ds[j].data).value.Key() != k
    requires k in books[i + 1].leases ==> ds[n].now < books[i + 1].leases[k].validUntil
    ensures ds[n].granted == ds[i].granted
  {
    DatagramRunStep(pool, books, ds, i);
    DatagramRunStep(pool, books, ds, n);
    DatagramsKeepSafe(pool, books, ds, i, ds[i].now);
    DatagramIsOp(pool, books[i], ds[i].data, ds[i].now, ds[i].granted, books[i + 1]);
    AskKeepsSafe(pool, books[i], k, ds[i].now, books[i + 1], ds[i].granted);
    var lease := books[i + 1].leases[k];
    forall j | i + 1 <= j < n ensures Spares(ds[j], k, lease.validUntil) { assert ds[j].now <= ds[n].now; }
    LeaseStaysThrough(pool, books, ds, i + 1, n, k, lease);
    DatagramIsOp(pool, books[n], ds[n].data, ds[n].now, ds[n].granted, books[n + 1]);
    AskKeepsLease(pool, books[n], k, ds[n].now, books[n + 1], ds[n].granted, k);
  }

  // ---------------------------------------------------------------- what the answer says

  /** Which datagrams with a client id are answered, and by what: an advertise for a solicit without rapid
      commit, a reply for everything else. The transaction id comes back. */
  lemma AnswerIff(pool: Pool, duid: seq<byte>, data: seq<byte>, a: Addr)
    requires pool.prefixLen <= 64 && ReadRequest(data).Some?
    ensures |data| >= 4
    ensures var r := ReadRequest(data).value;
            var resp := Serialized(ReplyTo(pool, duid, r, a));
            && (resp.Some? <==> data[0] == 1 || data[0] == 3 || data[0] == 5 || data[0] == 6 || data[0] == 8
                                || data[0] == 9 || data[0] == 11)
            && (resp.Some? ==> |resp.value| >= 4 && resp.value[1..4] == data[1..4]
                               && resp.value[0] == (if data[0] == 1 && !r.rapid then 2 else 7))
  {
    RequestFits(data);
  }

  /** An option that carries a status: its code in two bytes, then a text. */
  predicate IsStatus(o: DhcpOption, code: u16, text: string) {
    && o.code == 13 && |o.data| == 2 + |text| && U16At(o.data, 0) == code
    && forall i | 0 <= i < |text| :: o.data[2 + i] == text[i] as int
  }

  lemma StatusSays(code: u16, text: string)
    requires forall i | 0 <= i < |text| :: text[i] as int < 0x80
    ensures IsStatus(Status(code, text), code, text)
  {
    var d := Status(code, text).data;
    assert d[0..2] == BytesOfU16(code);
    U16Here(d, 0, code);
  }

  /** The answers in full, by option code: server id (2) and client id (1), then success (0) for a release or
      decline, nothing for an information request; otherwise a rapid commit (14) where asked for, and an
      association (3), or the status NotOnLink (4) for want of one, or inside one off the link. */
  lemma AnswerSays(pool: Pool, duid: seq<byte>, data: seq<byte>, a: Addr)
    requires pool.prefixLen <= 64 && ReadRequest(data).Some? && ReplyTo(pool, duid, ReadRequest(data).value, a).Some?
    ensures var r := ReadRequest(data).value;
            var os := ReplyTo(pool, duid, r, a).value.options;
            var rapid := data[0] == 1 && r.rapid;
            && |os| >= 2 && os[0] == DhcpOption(2, duid) && os[1] == DhcpOption(1, r.client)
            && (data[0] == 11 ==> |os| == 2)
            && (data[0] == 8 ==> |os| == 3 && IsStatus(os[2], 0, "released"))
            && (data[0] == 9 ==> |os| == 3 && IsStatus(os[2], 0, "declined"))
            && (data[0] == 1 || data[0] == 3 || data[0] == 5 || data[0] == 6 ==>
                  && |os| == (if rapid then 4 else 3) && (rapid ==> os[2] == DhcpOption(14, []))
                  && AssociationSays(pool, data, os[|os| - 1], a))
  {
    var r := ReadRequest(data).value;
    StatusSays(0, "released");
    StatusSays(0, "declined");
    if r.kind == 1 || r.kind == 3 || r.kind == 5 || r.kind == 6 { AssociationAsSent(pool, data, a); }
  }

  /** An association is its id, 3600 and 5400 seconds, and one option: the address for 7200 and 86400 seconds. */
  predicate AssociationSays(pool: Pool, data: seq<byte>, o: DhcpOption, a: Addr)
    requires pool.prefixLen <= 64 && ReadRequest(data).Some? && data != []
  {
    var r := ReadRequest(data).value;
    if r.iaid == 0 then IsStatus(o, 4, "no IA_NA")
    else
      && o.code == 3 && |o.data| >= 12
      && U32At(o.data, 0) == r.iaid && U32At(o.data, 4) == 3600 && U32At(o.data, 8) == 5400
      && var inner := Parse(o.data[12..]);
      && |inner| == 1
      && if Asks(pool, data) then
           && inner[0].code == 5 && |inner[0].data| == 24 && inner[0].data[..16] == a
           && U32At(inner[0].data, 16) == 7200 && U32At(inner[0].data, 20) == 86400
         else IsStatus(inner[0], 4, "NotOnLink")
  }

  lemma AssociationAsSent(pool: Pool, data: seq<byte>, a: Addr)
    requires pool.prefixLen <= 64 && ReadRequest(data).Some?
    requires data[0] == 1 || data[0] == 3 || data[0] == 5 || data[0] == 6
    ensures AssociationSays(pool, data, Association(pool, ReadRequest(data).value, a), a)
  {
    var r := ReadRequest(data).value;
    StatusSays(4, "no IA_NA");
    StatusSays(4, "NotOnLink");
    var inner := if Asks(pool, data) then IaAddr(a) else Status(S_NOTONLINK, "NotOnLink");
    InnerOption(r.iaid, inner);
    HeadSays(r.iaid, OptionBytes(inner));
    LifetimesSay(a);
  }

  lemma HeadSays(iaid: u32, rest: seq<byte>)
    ensures var d := IaHead(iaid) + rest; U32At(d, 0) == iaid && U32At(d, 4) == 3600 && U32At(d, 8) == 5400
  {
    var d := IaHead(iaid) + rest;
    assert d[0..4] == BytesOfU32(iaid) && d[4..8] == BytesOfU32(3600) && d[8..12] == BytesOfU32(5400);
    U32Here(d, 0, iaid);
    U32Here(d, 4, 3600);
    U32Here(d, 8, 5400);
  }

  lemma LifetimesSay(a: Addr)
    ensures var d := IaAddr(a).data; |d| == 24 && d[..16] == a && U32At(d, 16) == 7200 && U32At(d, 20) == 86400
  {
    var d := IaAddr(a).data;
    assert d[16..20] == BytesOfU32(7200) && d[20..24] == BytesOfU32(86400);
    U32Here(d, 16, 7200);
    U32Here(d, 20, 86400);
  }
}
