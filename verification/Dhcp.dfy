/** The DHCPv6 lease allocator and message handler of one interface. */
module Dhcp {
  import opened Types
  import opened Bytes
  import opened DhcpCodec
  import Cidr

  /** A pool has at least 64 host bits, so the count of host addresses is capped at the largest u64. */
  const HOST_COUNT: u64 := MAX_U64
  const SCAN_LIMIT := 4096
  const PRUNE_LIMIT := 16

  /** DUID and IAID. */
  type Client = (seq<byte>, u32)

  /** A leased address and the second it expires. */
  datatype Lease = Lease(addr: Addr, validUntil: nat)

  type Leases = map<Client, Lease>

  /** The pool's prefix, its host bits clear; at most 64 bits long. */
  datatype Pool = Pool(base: Addr, prefixLen: nat) {
    predicate Valid() {
      prefixLen <= 64 && ClearLow(Value(base), 128 - prefixLen) == Value(base)
    }
  }

  lemma HostBytesZero(pool: Pool)
    requires pool.Valid()
    ensures forall i | 8 <= i < 16 :: pool.base[i] == 0
  {
    ClearByBytes(pool.base, 128 - pool.prefixLen);
  }

  /** `parse_pool` after its text is read: host bits cleared, byte by byte. */
  method ParsePool(addr: Addr, prefixLen: byte) returns (p: Option<Pool>)
    ensures p.Some? <==> prefixLen <= 64
    ensures p.Some? ==> p.value.Valid() && p.value.prefixLen == prefixLen && InPool(p.value, addr)
  {
    if prefixLen > 64 { return None; }
    var out: Addr := UNSPECIFIED;
    for i := 0 to 16
      invariant forall j | 0 <= j < i && 8 * j + 8 <= prefixLen :: out[j] == addr[j]
      invariant forall j | 0 <= j < i && 8 * j < prefixLen < 8 * j + 8 ::
                  out[j] == ClearLow(addr[j], 8 * j + 8 - prefixLen)
      invariant forall j | 0 <= j < 16 && (j >= i || 8 * j >= prefixLen) :: out[j] == 0
    {
      var remaining := Max(prefixLen - 8 * i, 0);
      if remaining >= 8 {
        out := out[i := addr[i]];
      } else if remaining > 0 {
        ClearLowKeepsTop(addr[i], 8 - remaining);
        out := out[i := ClearLow(addr[i], 8 - remaining)];
      }
    }
    var full, rem := prefixLen / 8, prefixLen % 8;
    assert out[..full] == addr[..full];
    if rem != 0 {
      ClearLowKeepsTop(addr[full], 8 - rem);
      ClearLowSameBits(out[full], addr[full], 8 - rem);
    }
    Cidr.BytewiseIsTopBits(out, addr, prefixLen);
    HostBitsClear(out, addr, prefixLen);
    p := Some(Pool(out, prefixLen));
  }

  lemma HostBitsClear(out: Addr, addr: Addr, prefixLen: nat)
    requires prefixLen <= 64
    requires forall j | 0 <= j < 16 && 8 * j >= prefixLen :: out[j] == 0
    requires forall j | 0 <= j < 16 && 8 * j < prefixLen < 8 * j + 8 ::
               out[j] == ClearLow(addr[j], 8 * j + 8 - prefixLen)
    ensures ClearLow(Value(out), 128 - prefixLen) == Value(out)
  {
    var k, full, rem := 128 - prefixLen, prefixLen / 8, prefixLen % 8;
    if rem != 0 {
      assert 16 - k / 8 - 1 == full && k % 8 == 8 - rem;
      ClearLowTwice(addr[full], 8 - rem);
    }
    ClearByBytes(out, k);
  }

  /** An address shares the pool's leading bits. */
  predicate InPool(pool: Pool, a: Addr)
    requires pool.prefixLen <= 64
  {
    TopBits(pool.base, pool.prefixLen) == TopBits(a, pool.prefixLen)
  }

  /** `in_pool`: byte by byte, with a mask on the last. */
  method InPoolBytes(pool: Pool, a: Addr) returns (r: bool)
    requires pool.prefixLen <= 64
    ensures r == InPool(pool, a)
  {
    var full, rem := pool.prefixLen / 8, pool.prefixLen % 8;
    Cidr.BytewiseIsTopBits(pool.base, a, pool.prefixLen);
    for i := 0 to 16
      invariant forall j | 0 <= j < i && j < full :: pool.base[j] == a[j]
      invariant i > full && rem != 0 ==> ClearLow(pool.base[full], 8 - rem) == ClearLow(a[full], 8 - rem)
    {
      var remaining := Max(pool.prefixLen - 8 * i, 0);
      if remaining >= 8 {
        if pool.base[i] != a[i] {
          assert pool.base[..full][i] != a[..full][i];
          return false;
        }
      } else if remaining > 0 {
        assert i == full && remaining == rem;
        if ClearLow(pool.base[i], 8 - remaining) != ClearLow(a[i], 8 - remaining) { return false; }
      }
    }
    assert pool.base[..full] == a[..full];
    return true;
  }

  // ---------------------------------------------------------------- allocation

  /** `addr_at`: the offset is added to the two low segments seen as one number, of which only bits
      0..15 and 32..47 fit back. */
  function AddrAt(pool: Pool, offset: u64): Addr {
    var seg6: int, seg7: int := U16At(pool.base, 12), U16At(pool.base, 14);
    var low := (seg6 * TWO_32 + seg7 + offset + 1) % TWO_64;
    pool.base[..12] + BytesOfU16(low / TWO_32 % TWO_16) + BytesOfU16(low % TWO_16)
  }

  predicate InUse(leases: Leases, a: Addr, now: nat) {
    exists k | k in leases :: leases[k].addr == a && leases[k].validUntil > now
  }

  /** The first free address among the next `n`, and the offset after it. */
  function Probe(pool: Pool, leases: Leases, offset: u64, now: nat, n: nat): Option<(Addr, u64)>
    decreases n
  {
    if n == 0 then None
    else
      var a := AddrAt(pool, offset % HOST_COUNT);
      if !InUse(leases, a, now) then Some((a, (offset + 1) % TWO_64))
      else Probe(pool, leases, (offset + 1) % TWO_64, now, n - 1)
  }

  /** The unspecified address stands for an exhausted pool. */
  function Allocate(pool: Pool, leases: Leases, next: u64, now: nat): (Addr, u64) {
    match Probe(pool, leases, next, now, SCAN_LIMIT)
    case None => (UNSPECIFIED, next)
    case Some(r) => r
  }

  /** Up to sixteen expired leases go, which ones depends on the map's order; fewer only if none are left. */
  ghost predicate Pruned(before: Leases, after: Leases, now: nat) {
    && after.Keys <= before.Keys
    && (forall k | k in after :: after[k] == before[k])
    && (forall k | k in before && k !in after :: before[k].validUntil <= now)
    && |before| - |after| <= PRUNE_LIMIT
    && (|before| - |after| < PRUNE_LIMIT ==> forall k | k in after :: after[k].validUntil > now)
  }

  datatype Book = Book(leases: Leases, next: u64)

  /** `alloc_for` after its pruning left `kept`. */
  predicate AllocatesFrom(pool: Pool, kept: Leases, next: u64, c: Client, now: nat, s': Book, a: Addr) {
    if c in kept && kept[c].validUntil > now then a == kept[c].addr && s' == Book(kept, next)
    else
      var rest := kept - {c};
      && (a, s'.next) == Allocate(pool, rest, next, now)
      && s'.leases == if a == UNSPECIFIED then rest else rest[c := Lease(a, now + VALID)]
  }

  ghost predicate Allocates(pool: Pool, s: Book, c: Client, now: nat, s': Book, a: Addr) {
    exists kept :: Pruned(s.leases, kept, now) && AllocatesFrom(pool, kept, s.next, c, now, s', a)
  }

  /** What a request does to the leases. `a` is the address granted, if one was asked for. */
  ghost predicate Handles(pool: Pool, s: Book, r: Request, now: nat, s': Book, a: Addr)
    requires pool.prefixLen <= 64
  {
    if NeedsAddress(pool, r) then Allocates(pool, s, r.Key(), now, s', a)
    else if Releases(r) then s' == s.(leases := s.leases - {r.Key()})
    else s' == s
  }

  class Server {
    const pool: Pool
    const duid: seq<byte>
    var leases: Leases
    var nextOffset: u64

    constructor (pool: Pool, duid: seq<byte>)
      requires pool.Valid() && |duid| <= 0xFFFF
      ensures this.pool == pool && this.duid == duid && TheBook() == Book(map[], 0)
    {
      this.pool, this.duid, leases, nextOffset := pool, duid, map[], 0;
    }

    ghost function TheBook(): Book
      reads this
    {
      Book(leases, nextOffset)
    }

    /** `prune_expired_locked`: collect up to sixteen expired clients, then remove them. */
    method PruneExpired(now: nat)
      modifies this`leases
      ensures Pruned(old(leases), leases, now) && |old(leases)| <= |leases| + 16
    {
      var todo := leases.Keys;
      var expired: set<Client> := {};
      while todo != {} && |expired| < PRUNE_LIMIT
        invariant todo <= leases.Keys && expired <= leases.Keys && |expired| <= PRUNE_LIMIT
        invariant forall k | k in expired :: leases[k].validUntil <= now
        invariant forall k | k in leases && k !in todo && k !in expired :: leases[k].validUntil > now
        decreases |todo|
      {
        var k :| k in todo;
        todo := todo - {k};
        if leases[k].validUntil <= now {
          expired := expired + {k};
        }
      }
      ghost var before := leases;
      leases := leases - expired;
      assert leases.Keys == before.Keys - expired;
      assert |before.Keys| == |leases.Keys| + |expired| by {
        assert before.Keys == leases.Keys + expired;
      }
      assert |before| == |before.Keys| && |leases| == |leases.Keys|;
    }

    /** `alloc_addr_locked`: the bounded linear probe. */
    method AllocAddr(now: nat) returns (a: Addr)
      modifies this`nextOffset
      ensures (a, nextOffset) == Allocate(pool, leases, old(nextOffset), now)
    {
      var offset: u64 := nextOffset;
      for i := 0 to SCAN_LIMIT
        invariant nextOffset == old(nextOffset)
        invariant Probe(pool, leases, offset, now, SCAN_LIMIT - i) == Probe(pool, leases, nextOffset, now, SCAN_LIMIT)
      {
        var candidate := AddrAt(pool, offset % HOST_COUNT);
        if !InUse(leases, candidate, now) {
          nextOffset := (offset + 1) % TWO_64;
          return candidate;
        }
        offset := (offset + 1) % TWO_64;
      }
      return UNSPECIFIED;
    }

    /** `alloc_for`: prune, reuse the client's unexpired lease, or probe for a free address. */
    method AllocFor(c: Client, now: nat) returns (a: Addr)
      modifies this
      ensures Allocates(pool, old(TheBook()), c, now, TheBook(), a)
    {
      PruneExpired(now);
      ghost var kept := leases;
      if c in leases {
        if leases[c].validUntil > now {
          a := leases[c].addr;
          assert AllocatesFrom(pool, kept, old(nextOffset), c, now, TheBook(), a);
          return;
        }
        leases := leases - {c};
      }
      assert leases == kept - {c};
      a := AllocAddr(now);
      if a != UNSPECIFIED {
        leases := leases[c := Lease(a, now + VALID)];
      }
      assert AllocatesFrom(pool, kept, old(nextOffset), c, now, TheBook(), a);
    }

    method Release(c: Client)
      modifies this`leases
      ensures leases == old(leases) - {c}
    {
      leases := leases - {c};
    }

    /** `handle_message`: `None` is no answer. `a` is the address granted, if one was asked for. */
    method HandleMessage(data: seq<byte>, now: nat) returns (resp: Option<seq<byte>>, ghost a: Addr)
      requires pool.prefixLen <= 64
      modifies this
      ensures var q := ReadRequest(data);
              && resp == (if q.None? then None else Serialized(ReplyTo(pool, duid, q.value, a)))
              && (if q.None? then TheBook() == old(TheBook())
                  else Handles(pool, old(TheBook()), q.value, now, TheBook(), a))
    {
      a := UNSPECIFIED;
      var q := ReadRequest(data);
      if q.None? || !Answered(q.value.kind) { return None, a; }
      var r := q.value;
      var buf := [ReplyKind(r)] + r.txid;
      ghost var m := Message(ReplyKind(r), r.txid, []);
      buf, m := PushOption(buf, m, DhcpOption(O_SERVERID, duid));
      buf, m := PushOption(buf, m, DhcpOption(O_CLIENTID, r.client));
      buf, m, a := AnswerBody(r, buf, m, now);
      assert m.options == ReplyTo(pool, duid, r, a).value.options;
      resp := Some(buf);
    }

    /** What each kind of message does after the two ids are written. */
    method AnswerBody(r: Request, buf0: seq<byte>, ghost m0: Message, now: nat)
      returns (buf: seq<byte>, ghost m: Message, ghost a: Addr)
      requires pool.prefixLen <= 64 && buf0 == MessageBytes(m0) && Answered(r.kind)
      modifies this
      ensures m == m0.(options := m0.options + ReplyBody(pool, r, a)) && buf == MessageBytes(m)
      ensures Handles(pool, old(TheBook()), r, now, TheBook(), a)
    {
      buf, m, a := buf0, m0, UNSPECIFIED;
      if r.kind == INFORMATION_REQUEST {
        assert m0.options + [] == m0.options;
      } else if r.kind == RELEASE || r.kind == DECLINE {
        if r.iaid != 0 {
          Release(r.Key());
        }
        buf, m := PushOption(buf, m, Status(S_SUCCESS, if r.kind == RELEASE then "released" else "declined"));
      } else {
        buf, m, a := AnswerWithAddress(r, buf, m, now);
      }
    }

    /** Solicit, Request, Renew and Rebind: an address, or why there is none. */
    method AnswerWithAddress(r: Request, buf0: seq<byte>, ghost m0: Message, now: nat)
      returns (buf: seq<byte>, ghost m: Message, ghost a: Addr)
      requires pool.prefixLen <= 64 && buf0 == MessageBytes(m0) && r.kind in {SOLICIT, REQUEST, RENEW, REBIND}
      modifies this
      ensures m == m0.(options := m0.options + ReplyBody(pool, r, a)) && buf == MessageBytes(m)
      ensures if NeedsAddress(pool, r) then Allocates(pool, old(TheBook()), r.Key(), now, TheBook(), a)
              else TheBook() == old(TheBook())
    {
      buf, m := buf0, m0;
      if r.kind == SOLICIT && r.rapid {
        buf, m := PushOption(buf, m, DhcpOption(O_RAPID_COMMIT, []));
      }
      buf, m, a := PushAssociation(r, buf, m, now);
      assert m.options == m0.options + ReplyBody(pool, r, a);
    }

    method PushAssociation(r: Request, buf0: seq<byte>, ghost m0: Message, now: nat)
      returns (buf: seq<byte>, ghost m: Message, ghost a: Addr)
      requires pool.prefixLen <= 64 && buf0 == MessageBytes(m0) && r.kind in {SOLICIT, REQUEST, RENEW, REBIND}
      modifies this
      ensures m == m0.(options := m0.options + [Association(pool, r, a)]) && buf == MessageBytes(m)
      ensures if NeedsAddress(pool, r) then Allocates(pool, old(TheBook()), r.Key(), now, TheBook(), a)
              else TheBook() == old(TheBook())
    {
      a := UNSPECIFIED;
      if r.iaid == 0 {
        buf, m := PushOption(buf0, m0, Status(S_NOTONLINK, "no IA_NA"));
        return;
      }
      var offLink := false;
      if r.kind != SOLICIT && r.requested.Some? && r.requested.value != UNSPECIFIED {
        var here := InPoolBytes(pool, r.requested.value);
        offLink := !here;
      }
      if offLink {
        buf, m := PushOption(buf0, m0, IaNaStatus(r.iaid));
      } else {
        var granted := AllocFor(r.Key(), now);
        a := granted;
        buf, m := PushOption(buf0, m0, IaNa(r.iaid, granted));
      }
    }
  }

  /** `push_option` onto the bytes of a message under construction. */
  method PushOption(buf: seq<byte>, ghost m: Message, o: DhcpOption) returns (buf': seq<byte>, ghost m': Message)
    requires buf == MessageBytes(m)
    ensures m' == m.(options := m.options + [o]) && buf' == MessageBytes(m')
  {
    EncodeSnoc(m.options, o);
    m' := m.(options := m.options + [o]);
    buf' := buf + OptionBytes(o);
  }

  // ---------------------------------------------------------------- messages

  const SOLICIT: byte := 1
  const ADVERTISE: byte := 2
  const REQUEST: byte := 3
  const RENEW: byte := 5
  const REBIND: byte := 6
  const REPLY: byte := 7
  const RELEASE: byte := 8
  const DECLINE: byte := 9
  const INFORMATION_REQUEST: byte := 11

  const S_SUCCESS: u16 := 0
  const S_NOTONLINK: u16 := 4

  datatype Request = Request(
    kind: byte, txid: seq<byte>, client: seq<byte>, iaid: u32, requested: Option<Addr>, rapid: bool)
  {
    function Key(): Client {
      (client, iaid)
    }
  }

  /** A datagram without a client id is ignored. Only the first IA_NA counts. */
  function ReadRequest(data: seq<byte>): Option<Request> {
    var m := ReadMessage(data);
    if m.None? || DhcpCodec.Find(m.value.options, O_CLIENTID).None? then None
    else
      var os := m.value.options;
      var ia := DhcpCodec.Find(os, O_IA_NA);
      Some(Request(m.value.kind, m.value.txid, DhcpCodec.Find(os, O_CLIENTID).value.data, IaidOf(ia), AddressIn(ia),
                   DhcpCodec.Find(os, O_RAPID_COMMIT).Some?))
  }

  predicate Answered(kind: byte) {
    kind in {SOLICIT, REQUEST, RENEW, REBIND, RELEASE, DECLINE, INFORMATION_REQUEST}
  }

  /** The client says it holds an address that is not of this link. */
  predicate OffLink(pool: Pool, r: Request)
    requires pool.prefixLen <= 64
  {
    && r.kind in {REQUEST, RENEW, REBIND} && r.requested.Some?
    && r.requested.value != UNSPECIFIED && !InPool(pool, r.requested.value)
  }

  predicate NeedsAddress(pool: Pool, r: Request)
    requires pool.prefixLen <= 64
  {
    r.kind in {SOLICIT, REQUEST, RENEW, REBIND} && r.iaid != 0 && !OffLink(pool, r)
  }

  predicate Releases(r: Request) {
    r.kind in {RELEASE, DECLINE} && r.iaid != 0
  }

  function Ascii(s: string): seq<byte> {
    seq(|s|, i requires 0 <= i < |s| => s[i] as int % 0x100)
  }

  function Status(code: u16, text: string): DhcpOption {
    DhcpOption(O_STATUS, BytesOfU16(code) + Ascii(text))
  }

  function IaNaStatus(iaid: u32): DhcpOption {
    DhcpOption(O_IA_NA, IaHead(iaid) + OptionBytes(Status(S_NOTONLINK, "NotOnLink")))
  }

  function ReplyKind(r: Request): byte {
    if r.kind == SOLICIT && !r.rapid then ADVERTISE else REPLY
  }

  /** What follows the two ids in a reply. */
  function ReplyBody(pool: Pool, r: Request, a: Addr): seq<DhcpOption>
    requires pool.prefixLen <= 64
  {
    if r.kind == INFORMATION_REQUEST then []
    else if r.kind == RELEASE then [Status(S_SUCCESS, "released")]
    else if r.kind == DECLINE then [Status(S_SUCCESS, "declined")]
    else
      (if r.kind == SOLICIT && r.rapid then [DhcpOption(O_RAPID_COMMIT, [])] else [])
      + [Association(pool, r, a)]
  }

  function Association(pool: Pool, r: Request, a: Addr): DhcpOption
    requires pool.prefixLen <= 64
  {
    if r.iaid == 0 then Status(S_NOTONLINK, "no IA_NA")
    else if OffLink(pool, r) then IaNaStatus(r.iaid)
    else IaNa(r.iaid, a)
  }

  function ReplyTo(pool: Pool, duid: seq<byte>, r: Request, a: Addr): Option<Message>
    requires pool.prefixLen <= 64
  {
    if !Answered(r.kind) then None
    else Some(Message(ReplyKind(r), r.txid,
                      [DhcpOption(O_SERVERID, duid), DhcpOption(O_CLIENTID, r.client)] + ReplyBody(pool, r, a)))
  }

  function Serialized(m: Option<Message>): Option<seq<byte>> {
    if m.None? then None else Some(MessageBytes(m.value))
  }
}
