/** What the DHCPv6 server promises over its runs. */
module DhcpLeases {
  import opened Types
  import opened Bytes
  import opened DhcpCodec
  import opened Dhcp
  import opened Sets

  // ---------------------------------------------------------------- addresses of the pool

  lemma AddrAtInPool(pool: Pool, offset: u64)
    requires pool.Valid()
    ensures InPool(pool, AddrAt(pool, offset))
  {
    var a := AddrAt(pool, offset);
    assert pool.base == pool.base[..12] + pool.base[12..] && a == pool.base[..12] + a[12..];
    TopBitsDrop(pool.base[..12], pool.base[12..], pool.prefixLen);
    TopBitsDrop(pool.base[..12], a[12..], pool.prefixLen);
  }

  lemma AddrAtNotUnspecified(pool: Pool, offset: u64)
    requires pool.Valid() && pool.base != UNSPECIFIED
    ensures AddrAt(pool, offset) != UNSPECIFIED
  {
    HostBytesZero(pool);
    var i :| 0 <= i < 16 && pool.base[i] != 0;
    assert AddrAt(pool, offset)[i] == pool.base[i];
  }

  /** What is left of an offset in its address: bits 32 to 47 and bits 0 to 15 of the offset plus one. */
  function High(offset: u64): u16 {
    (offset + 1) % TWO_64 / TWO_32 % TWO_16
  }

  function Low(offset: u64): u16 {
    (offset + 1) % TWO_64 % TWO_16
  }

  /** With the host bits of the base clear, the low segments of the address are the offset's. */
  lemma LowSegment(pool: Pool, offset: u64)
    requires pool.Valid()
    ensures AddrAt(pool, offset)[14..] == BytesOfU16(Low(offset))
    ensures AddrAt(pool, offset)[12..14] == BytesOfU16(High(offset))
  {
    HostBytesZero(pool);
  }

  /** Two offsets meet in one address exactly when those bits agree; bits 16 to 31 and 48 to 63 are lost. */
  lemma AddressesMeetIff(pool: Pool, o: u64, p: u64)
    requires pool.Valid()
    ensures AddrAt(pool, o) == AddrAt(pool, p) <==> High(o) == High(p) && Low(o) == Low(p)
  {
    LowSegment(pool, o);
    LowSegment(pool, p);
    BytesOfU16Injective(High(o), High(p));
    BytesOfU16Injective(Low(o), Low(p));
    if High(o) == High(p) && Low(o) == Low(p) {
      SameBytes(AddrAt(pool, o), AddrAt(pool, p));
    }
  }

  /** As a number, the address is the base plus the offset plus one exactly for the first 65535 offsets:
      past them the upper part of the sum is written sixteen bits too low. */
  lemma AddressIsSumIff(pool: Pool, offset: u64)
    requires pool.Valid() && offset < HOST_COUNT
    ensures Value(AddrAt(pool, offset)) == Value(pool.base) + offset + 1 <==> offset + 1 < TWO_16
  {
    AddressAsNumber(pool, offset);
    PartsOf(offset);
    PartsAreSumIff(offset + 1);
  }

  lemma PartsOf(offset: u64)
    requires offset < HOST_COUNT
    ensures High(offset) == (offset + 1) / TWO_32 % TWO_16 && Low(offset) == (offset + 1) % TWO_16
  {
    assert (offset + 1) % TWO_64 == offset + 1;
  }

  lemma AddressAsNumber(pool: Pool, offset: u64)
    requires pool.Valid()
    ensures Value(AddrAt(pool, offset)) == Value(pool.base) + High(offset) * TWO_16 + Low(offset)
  {
    HostBytesZero(pool);
    LowSegment(pool, offset);
    var head, a := pool.base[..12], AddrAt(pool, offset);
    assert pool.base == head + [0, 0, 0, 0];
    ValueAppendFour(head, 0, 0, 0, 0);
    assert a == head + a[12..14] + a[14..];
    ValueOfWords(head, High(offset), Low(offset));
  }

  lemma ValueOfWords(head: seq<byte>, hi: u16, lo: u16)
    ensures Value(head + BytesOfU16(hi) + BytesOfU16(lo)) == Value(head) * TWO_32 + hi * TWO_16 + lo
  {
    ValueAppendFour(head, hi / 0x100, hi % 0x100, lo / 0x100, lo % 0x100);
    TwoWords(hi, lo);
    assert head + BytesOfU16(hi) + BytesOfU16(lo) == head + [hi / 0x100, hi % 0x100, lo / 0x100, lo % 0x100];
  }

  lemma TwoWords(hi: u16, lo: u16)
    ensures Digits(hi / 0x100, hi % 0x100, lo / 0x100, lo % 0x100) == hi * 0x1_0000 + lo
  {
  }

  lemma PartsAreSumIff(x: u64)
    ensures x / TWO_32 % TWO_16 * TWO_16 + x % TWO_16 == x <==> x < TWO_16
  {
  }

  /** Read as two segments thirty-two bits apart, as the source adds them, the sum is kept exactly when the
      lost bits are zero. */
  lemma SumIsKeptIff(offset: u64)
    requires offset < HOST_COUNT
    ensures High(offset) * TWO_32 + Low(offset) == offset + 1
            <==> (offset + 1) / TWO_16 % TWO_16 == 0 && (offset + 1) / (TWO_16 * TWO_32) == 0
  {
    PartsOf(offset);
    FourWords(offset + 1);
  }

  lemma FourWords(x: u64)
    ensures x == x / (TWO_16 * TWO_32) * (TWO_16 * TWO_32) + x / TWO_32 % TWO_16 * TWO_32
                 + x / TWO_16 % TWO_16 * TWO_16 + x % TWO_16
  {
    assert x / TWO_16 / TWO_16 == x / TWO_32;
    assert x / TWO_32 / TWO_16 == x / (TWO_16 * TWO_32);
  }

  /** So addresses of offsets less than 65536 apart are different. */
  lemma NearOffsetsDiffer(pool: Pool, o: u64, p: u64)
    requires pool.Valid() && o < p < HOST_COUNT && p - o < TWO_16
    ensures AddrAt(pool, o) != AddrAt(pool, p)
  {
    AddressesMeetIff(pool, o, p);
    LowPartsDiffer(o, p);
  }

  lemma LowPartsDiffer(o: u64, p: u64)
    requires o < p < HOST_COUNT && p - o < TWO_16
    ensures Low(o) != Low(p)
  {
    assert (o + 1) % TWO_64 == o + 1 && (p + 1) % TWO_64 == p + 1;
    NearRemaindersDiffer(o + 1, p - o);
  }

  lemma NearRemaindersDiffer(a: nat, d: nat)
    requires 0 < d < TWO_16
    ensures a % TWO_16 != (a + d) % TWO_16
  {
    var x, y := a / TWO_16, (a + d) / TWO_16;
    assert a == x * TWO_16 + a % TWO_16 && a + d == y * TWO_16 + (a + d) % TWO_16;
  }

  /** And offsets 65536 apart meet while they stay below 2^32. */
  lemma FarOffsetsCollide(pool: Pool, o: u64)
    requires pool.Valid() && o + TWO_16 + 1 < TWO_32
    ensures AddrAt(pool, o) == AddrAt(pool, o + TWO_16)
  {
    AddressesMeetIff(pool, o, o + TWO_16);
    SmallParts(o);
    SmallParts(o + TWO_16);
    OnceRound(o + 1, o + TWO_16 + 1);
  }

  lemma OnceRound(x: nat, y: nat)
    requires y == x + TWO_16
    ensures x % TWO_16 == y % TWO_16
  {
  }

  lemma SmallParts(o: u64)
    requires o + 1 < TWO_32
    ensures High(o) == 0 && Low(o) == (o + 1) % TWO_16
  {
    assert (o + 1) % TWO_64 == o + 1 && (o + 1) / TWO_32 == 0;
  }

  lemma SameBytes(a: Addr, b: Addr)
    requires a[..12] == b[..12] && a[12..14] == b[12..14] && a[14..] == b[14..]
    ensures a == b
  {
    assert a == a[..12] + a[12..14] + a[14..] && b == b[..12] + b[12..14] + b[14..];
  }

  // ---------------------------------------------------------------- allocation does not fail early

  function LiveClients(leases: Leases, now: nat): set<Client> {
    set k | k in leases && leases[k].validUntil > now
  }

  predicate Taken(pool: Pool, leases: Leases, offset: u64, now: nat) {
    InUse(leases, AddrAt(pool, offset), now)
  }

  lemma ProbeStep(pool: Pool, leases: Leases, offset: u64, now: nat, n: nat)
    requires offset + 1 < HOST_COUNT && n > 0 && Probe(pool, leases, offset, now, n).None?
    ensures Taken(pool, leases, offset, now) && Probe(pool, leases, offset + 1, now, n - 1).None?
  {
    SmallOffset(offset);
  }

  lemma SmallOffset(offset: u64)
    requires offset + 1 < HOST_COUNT
    ensures offset % HOST_COUNT == offset && (offset + 1) % TWO_64 == offset + 1
  {
  }

  /** A probe fails only if every address it tried is in use. */
  lemma {:induction false} ProbeFails(pool: Pool, leases: Leases, offset: u64, now: nat, n: nat, i: u64)
    requires offset + n < HOST_COUNT && Probe(pool, leases, offset, now, n).None? && offset <= i < offset + n
    ensures Taken(pool, leases, i, now)
    decreases n
  {
    ProbeStep(pool, leases, offset, now, n);
    if offset < i { ProbeFails(pool, leases, offset + 1, now, n - 1, i); }
  }

  /** Any answer of the probe is an address of the pool. */
  lemma {:induction false} ProbeFromPool(pool: Pool, leases: Leases, offset: u64, now: nat, n: nat)
    requires Probe(pool, leases, offset, now, n).Some?
    ensures var a := Probe(pool, leases, offset, now, n).value.0;
            !InUse(leases, a, now) && exists o: u64 :: a == AddrAt(pool, o)
    decreases n
  {
    if InUse(leases, AddrAt(pool, offset % HOST_COUNT), now) {
      ProbeFromPool(pool, leases, (offset + 1) % TWO_64, now, n - 1);
    }
  }

  /** Every offset of a stretch is taken. */
  ghost predicate AllTaken(pool: Pool, leases: Leases, from: nat, to: nat, now: nat) {
    forall o: u64 | from <= o < to :: Taken(pool, leases, o, now)
  }

  lemma OneProbe(pool: Pool, leases: Leases, offset: u64, now: nat, n: nat)
    requires 0 < n && offset + n < HOST_COUNT
    ensures Probe(pool, leases, offset, now, n)
            == if Taken(pool, leases, offset, now) then Probe(pool, leases, offset + 1, now, n - 1)
               else Some((AddrAt(pool, offset), offset + 1))
  {
    SmallOffset(offset);
  }

  /** The address of the first offset of a stretch that is not taken, and the offset after it, if there is one. */
  ghost predicate FirstFree(pool: Pool, leases: Leases, from: nat, to: nat, now: nat, r: Option<(Addr, u64)>) {
    match r
    case None => AllTaken(pool, leases, from, to, now)
    case Some((a, after)) =>
      && from < after <= to && a == AddrAt(pool, after - 1)
      && !Taken(pool, leases, after - 1, now) && AllTaken(pool, leases, from, after - 1, now)
  }

  lemma OneMoreTaken(pool: Pool, leases: Leases, from: u64, to: nat, now: nat, r: Option<(Addr, u64)>)
    requires from < to && from + 1 < HOST_COUNT && Taken(pool, leases, from, now)
    requires FirstFree(pool, leases, from + 1, to, now, r)
    ensures FirstFree(pool, leases, from, to, now, r)
  {
  }

  lemma NothingProbed(pool: Pool, leases: Leases, from: u64, now: nat)
    ensures FirstFree(pool, leases, from, from, now, Probe(pool, leases, from, now, 0))
  {
  }

  lemma FreeAtOnce(pool: Pool, leases: Leases, from: u64, to: nat, now: nat)
    requires from < to && from + 1 < HOST_COUNT && !Taken(pool, leases, from, now)
    ensures FirstFree(pool, leases, from, to, now, Some((AddrAt(pool, from), from + 1)))
  {
  }

  /** The probe gives the address of the first offset of its stretch that is not taken, and goes on after it. */
  lemma {:induction false} ProbeIsFirstFree(pool: Pool, leases: Leases, offset: u64, now: nat, n: nat)
    requires offset + n < HOST_COUNT
    ensures FirstFree(pool, leases, offset, offset + n, now, Probe(pool, leases, offset, now, n))
    decreases n
  {
    if n == 0 {
      NothingProbed(pool, leases, offset, now);
    } else {
      OneProbe(pool, leases, offset, now, n);
      if Taken(pool, leases, offset, now) {
        ProbeIsFirstFree(pool, leases, offset + 1, now, n - 1);
        OneMoreTaken(pool, leases, offset, offset + n, now, Probe(pool, leases, offset + 1, now, n - 1));
      } else {
        FreeAtOnce(pool, leases, offset, offset + n, now);
      }
    }
  }

  /** If a window of addresses is all in use, there are as many live clients as addresses: each has its own. */
  lemma {:induction false} OwnersOfWindow(pool: Pool, leases: Leases, offset: u64, now: nat, n: nat)
    returns (owners: set<Client>)
    requires pool.Valid() && offset + n < HOST_COUNT && n <= TWO_16
    requires forall i: u64 | offset <= i < offset + n :: Taken(pool, leases, i, now)
    ensures owners <= LiveClients(leases, now) && |owners| == n
    ensures forall k | k in owners :: exists i: u64 | offset <= i < offset + n :: leases[k].addr == AddrAt(pool, i)
    decreases n
  {
    if n == 0 {
      owners := {};
    } else {
      var others := OwnersOfWindow(pool, leases, offset, now, n - 1);
      var last: u64 := offset + n - 1;
      assert Taken(pool, leases, last, now);
      var k :| k in leases && leases[k].addr == AddrAt(pool, last) && leases[k].validUntil > now;
      if k in others {
        var i: u64 :| offset <= i < offset + n - 1 && leases[k].addr == AddrAt(pool, i);
        NearOffsetsDiffer(pool, i, last);
        assert false;
      }
      owners := others + {k};
    }
  }

  /** Pigeonhole: with fewer than 4096 live leases the 4096-step probe finds a free address of the pool. */
  lemma ProbeSucceeds(pool: Pool, leases: Leases, next: u64, now: nat)
    requires pool.Valid() && |LiveClients(leases, now)| < SCAN_LIMIT && next + SCAN_LIMIT < HOST_COUNT
    ensures Probe(pool, leases, next, now, SCAN_LIMIT).Some?
  {
    if Probe(pool, leases, next, now, SCAN_LIMIT).None? {
      forall i: u64 | next <= i < next + SCAN_LIMIT ensures Taken(pool, leases, i, now) {
        ProbeFails(pool, leases, next, now, SCAN_LIMIT, i);
      }
      var owners := OwnersOfWindow(pool, leases, next, now, SCAN_LIMIT);
      SubsetSize(owners, LiveClients(leases, now));
      assert false;
    }
  }

  /** Allocation with room left always grants an address. */
  ghost predicate NeverFailsEarly(pool: Pool) {
    forall leases: Leases, next: u64, now: nat
      | |LiveClients(leases, now)| < 4096 && next + 4096 < 0xFFFF_FFFF_FFFF_FFFF
      :: Allocate(pool, leases, next, now).0 != UNSPECIFIED
  }

  /** That holds exactly for the pools whose prefix is not all zero: in the zero pool, offset 65535 is the
      unspecified address, which is taken for exhaustion. */
  lemma NeverFailsEarlyIff(pool: Pool)
    requires pool.Valid()
    ensures NeverFailsEarly(pool) <==> pool.base != UNSPECIFIED
  {
    if pool.base != UNSPECIFIED {
      forall leases: Leases, next: u64, now: nat
        | |LiveClients(leases, now)| < SCAN_LIMIT && next + SCAN_LIMIT < HOST_COUNT
        ensures Allocate(pool, leases, next, now).0 != UNSPECIFIED
      {
        AllocateGrants(pool, leases, next, now);
      }
    } else {
      ZeroPoolFails(pool, map[], 65535);
    }
  }

  lemma AllocateGrants(pool: Pool, leases: Leases, next: u64, now: nat)
    requires pool.Valid() && pool.base != UNSPECIFIED
    requires |LiveClients(leases, now)| < SCAN_LIMIT && next + SCAN_LIMIT < HOST_COUNT
    ensures Allocate(pool, leases, next, now).0 != UNSPECIFIED
  {
    ProbeSucceeds(pool, leases, next, now);
    ProbeFromPool(pool, leases, next, now, SCAN_LIMIT);
    var o: u64 :| Allocate(pool, leases, next, now).0 == AddrAt(pool, o);
    AddrAtNotUnspecified(pool, o);
  }

  /** With no lease at all, offset 65535 of the zero pool looks like exhaustion. */
  lemma ZeroPoolFails(pool: Pool, none: Leases, offset: u64)
    requires pool.Valid() && pool.base == UNSPECIFIED && none == map[] && offset == 65535
    ensures Allocate(pool, none, offset, 0).0 == UNSPECIFIED && LiveClients(none, 0) == {}
  {
    ZeroPoolAddress(pool, offset);
    OneProbe(pool, none, offset, 0, SCAN_LIMIT);
  }

  lemma ZeroPoolAddress(pool: Pool, offset: u64)
    requires pool.Valid() && pool.base == UNSPECIFIED && offset == 65535
    ensures AddrAt(pool, offset) == UNSPECIFIED
  {
    LowSegment(pool, offset);
    SmallParts(offset);
    SameBytes(AddrAt(pool, offset), UNSPECIFIED);
  }

  // ---------------------------------------------------------------- lease safety

  /** No two unexpired leases share an address, and every leased address is of the pool. */
  ghost predicate Safe(pool: Pool, leases: Leases, now: nat)
    requires pool.prefixLen <= 64
  {
    && (forall k: Client, k': Client | k in leases && k' in leases && k != k'
          && leases[k].validUntil > now && leases[k'].validUntil > now :: leases[k].addr != leases[k'].addr)
    && (forall k | k in leases :: InPool(pool, leases[k].addr) && leases[k].addr != UNSPECIFIED)
  }

  lemma AllocateIsFree(pool: Pool, leases: Leases, next: u64, now: nat)
    requires pool.Valid() && Allocate(pool, leases, next, now).0 != UNSPECIFIED
    ensures var a := Allocate(pool, leases, next, now).0;
            InPool(pool, a) && forall k | k in leases && leases[k].validUntil > now :: leases[k].addr != a
  {
    ProbeFromPool(pool, leases, next, now, SCAN_LIMIT);
    var o: u64 :| Allocate(pool, leases, next, now).0 == AddrAt(pool, o);
    AddrAtInPool(pool, o);
  }

  lemma SubsetSafe(pool: Pool, leases: Leases, small: Leases, now: nat)
    requires pool.Valid() && Safe(pool, leases, now) && forall k | k in small :: k in leases && small[k] == leases[k]
    ensures Safe(pool, small, now)
  {
  }

  lemma GrantKeepsSafe(pool: Pool, leases: Leases, c: Client, next: u64, now: nat)
    requires pool.Valid() && Safe(pool, leases, now) && Allocate(pool, leases, next, now).0 != UNSPECIFIED
    ensures var a := Allocate(pool, leases, next, now).0;
            Safe(pool, leases[c := Lease(a, now + VALID)], now) && InPool(pool, a)
  {
    AllocateIsFree(pool, leases, next, now);
  }

  lemma AskKeepsSafe(pool: Pool, s: Book, c: Client, now: nat, s': Book, a: Addr)
    requires pool.Valid() && Safe(pool, s.leases, now) && Allocates(pool, s, c, now, s', a)
    ensures Safe(pool, s'.leases, now)
    ensures a != UNSPECIFIED ==> HoldsLease(s', c, a, now) && InPool(pool, a)
  {
    var kept: Leases :| Pruned(s.leases, kept, now) && AllocatesFrom(pool, kept, s.next, c, now, s', a);
    SubsetSafe(pool, s.leases, kept, now);
    if !(c in kept && kept[c].validUntil > now) {
      SubsetSafe(pool, kept, kept - {c}, now);
      if a != UNSPECIFIED { GrantKeepsSafe(pool, kept - {c}, c, s.next, now); }
    }
  }

  /** A lease that has not run out survives any request, and its own client's request returns it. */
  lemma AskKeepsLease(pool: Pool, s: Book, c: Client, now: nat, s': Book, a: Addr, k: Client)
    requires Allocates(pool, s, c, now, s', a) && k in s.leases && s.leases[k].validUntil > now
    ensures k in s'.leases && s'.leases[k] == s.leases[k]
    ensures c == k ==> a == s.leases[k].addr
  {
    var kept: Leases :| Pruned(s.leases, kept, now) && AllocatesFrom(pool, kept, s.next, c, now, s', a);
    assert k in kept;
  }

  /** The lifetime promised in the reply. A request returns an unexpired lease as it is, without extending it,
      so the lease lasts as long as promised exactly when the client did not hold a shorter one. */
  lemma LifetimeKeptIff(pool: Pool, s: Book, c: Client, now: nat, s': Book, a: Addr)
    requires Allocates(pool, s, c, now, s', a) && c in s'.leases
    ensures s'.leases[c].validUntil >= now + 86400
            <==> !(c in s.leases && now < s.leases[c].validUntil < now + 86400)
  {
    var kept: Leases :| Pruned(s.leases, kept, now) && AllocatesFrom(pool, kept, s.next, c, now, s', a);
    if c in s.leases && now < s.leases[c].validUntil { assert c in kept; }
  }

  // ---------------------------------------------------------------- runs

  datatype Op = Ask(c: Client, now: nat, a: Addr) | GiveUp(c: Client, now: nat)

  ghost predicate OpStep(pool: Pool, s: Book, op: Op, s': Book) {
    match op
    case Ask(c, now, a) => Allocates(pool, s, c, now, s', a)
    case GiveUp(c, _) => s' == s.(leases := s.leases - {c})
  }

  /** A run of the server from no leases, on a clock that never goes back. */
  ghost predicate IsRun(pool: Pool, books: seq<Book>, ops: seq<Op>) {
    && |books| == |ops| + 1
    && books[0].leases == map[]
    && (forall i | 0 <= i < |ops| :: StepAt(pool, books, ops, i))
    && (forall i, j | 0 <= i <= j < |ops| :: ops[i].now <= ops[j].now)
  }

  ghost predicate StepAt(pool: Pool, books: seq<Book>, ops: seq<Op>, i: nat)
    requires |books| == |ops| + 1 && i < |ops|
  {
    OpStep(pool, books[i], ops[i], books[i + 1])
  }

  lemma RunStep(pool: Pool, books: seq<Book>, ops: seq<Op>, i: nat)
    requires IsRun(pool, books, ops) && i < |ops|
    ensures OpStep(pool, books[i], ops[i], books[i + 1]) && (i > 0 ==> ops[i - 1].now <= ops[i].now)
  {
    assert StepAt(pool, books, ops, i);
  }

  /** Lease safety: after every operation of every run, and at any later time. */
  lemma {:induction false} LeaseSafety(pool: Pool, books: seq<Book>, ops: seq<Op>, n: nat, now: nat)
    requires pool.Valid() && IsRun(pool, books, ops) && n <= |ops| && (n > 0 ==> ops[n - 1].now <= now)
    ensures Safe(pool, books[n].leases, now)
    decreases n
  {
    if n == 0 {
      NoLeasesSafe(pool, books[0].leases, now);
    } else {
      LeaseSafety(pool, books, ops, n - 1, ops[n - 1].now);
      RunKeepsSafe(pool, books, ops, n - 1, now);
    }
  }

  lemma RunKeepsSafe(pool: Pool, books: seq<Book>, ops: seq<Op>, i: nat, now: nat)
    requires pool.Valid() && IsRun(pool, books, ops) && i < |ops| && ops[i].now <= now
    requires Safe(pool, books[i].leases, ops[i].now)
    ensures Safe(pool, books[i + 1].leases, now)
  {
    RunStep(pool, books, ops, i);
    OpKeepsSafe(pool, books[i], ops[i], books[i + 1], now);
  }

  lemma NoLeasesSafe(pool: Pool, leases: Leases, now: nat)
    requires pool.Valid() && leases == map[]
    ensures Safe(pool, leases, now)
  {
  }

  lemma OpKeepsSafe(pool: Pool, s: Book, op: Op, s': Book, now: nat)
    requires pool.Valid() && Safe(pool, s.leases, op.now) && OpStep(pool, s, op, s') && op.now <= now
    ensures Safe(pool, s'.leases, now)
  {
    if op.Ask? { AskKeepsSafe(pool, s, op.c, op.now, s', op.a); }
  }

  /** The operation comes before `until` and does not give up the lease of `k`. */
  predicate Leaves(op: Op, k: Client, until: nat) {
    op.now < until && (op.GiveUp? ==> op.c != k)
  }

  lemma OpKeepsLease(pool: Pool, s: Book, op: Op, s': Book, k: Client, lease: Lease)
    requires OpStep(pool, s, op, s') && k in s.leases && s.leases[k] == lease && Leaves(op, k, lease.validUntil)
    ensures k in s'.leases && s'.leases[k] == lease
  {
    if op.Ask? { AskKeepsLease(pool, s, op.c, op.now, s', op.a, k); }
  }

  lemma {:induction false} LeaseStays(
    pool: Pool, books: seq<Book>, ops: seq<Op>, i: nat, n: nat, k: Client, lease: Lease)
    requires IsRun(pool, books, ops) && i <= n <= |ops| && k in books[i].leases && books[i].leases[k] == lease
    requires forall j | i <= j < n :: Leaves(ops[j], k, lease.validUntil)
    ensures k in books[n].leases && books[n].leases[k] == lease
    decreases n
  {
    if i < n {
      LeaseStays(pool, books, ops, i, n - 1, k, lease);
      RunStep(pool, books, ops, n - 1);
      OpKeepsLease(pool, books[n - 1], ops[n - 1], books[n], k, lease);
    }
  }

  /** A client that was granted an address and asks again before its lease runs out, without giving it up
      in between, gets the same address, whatever other clients did. */
  lemma SameAddressAgain(pool: Pool, books: seq<Book>, ops: seq<Op>, i: nat, n: nat)
    requires pool.Valid() && IsRun(pool, books, ops) && i < n < |ops|
    requires ops[i].Ask? && ops[n].Ask? && ops[i].c == ops[n].c && ops[i].a != UNSPECIFIED
    requires forall j | i < j < n :: ops[j] != GiveUp(ops[i].c, ops[j].now)
    requires ops[i].c in books[i + 1].leases ==> ops[n].now < books[i + 1].leases[ops[i].c].validUntil
    ensures ops[n].a == ops[i].a
  {
    var k := ops[i].c;
    RunStep(pool, books, ops, i);
    RunStep(pool, books, ops, n);
    LeaseSafety(pool, books, ops, i, ops[i].now);
    AskKeepsSafe(pool, books[i], k, ops[i].now, books[i + 1], ops[i].a);
    forall j | i + 1 <= j < n ensures Leaves(ops[j], k, books[i + 1].leases[k].validUntil) {
      assert ops[j].now <= ops[n].now;
    }
    LeaseStays(pool, books, ops, i + 1, n, k, books[i + 1].leases[k]);
    AskKeepsLease(pool, books[n], k, ops[n].now, books[n + 1], ops[n].a, k);
  }

  // ---------------------------------------------------------------- replies

  lemma RequestFits(data: seq<byte>)
    requires ReadRequest(data).Some?
    ensures |ReadRequest(data).value.client| <= 0xFFFF && |ReadRequest(data).value.txid| == 3
  {
    ParsedFits(data[4..]);
    DhcpCodec.FindMember(Parse(data[4..]), O_CLIENTID);
  }

  lemma BodyFits(pool: Pool, r: Request, a: Addr)
    requires pool.prefixLen <= 64
    ensures forall o | o in ReplyBody(pool, r, a) :: Fits(o)
  {
    IaNaRoundTrip(r.iaid, a);
    StatusHasNoAddress(r.iaid);
  }

  /** Every reply reads back: the request's transaction id, the server's id, then the client's. */
  lemma ReplyReadsBack(pool: Pool, duid: seq<byte>, data: seq<byte>, a: Addr)
    requires pool.prefixLen <= 64 && |duid| <= 0xFFFF && ReadRequest(data).Some?
    requires ReplyTo(pool, duid, ReadRequest(data).value, a).Some?
    ensures var r := ReadRequest(data).value;
            var m := ReadMessage(MessageBytes(ReplyTo(pool, duid, r, a).value));
            && m == ReplyTo(pool, duid, r, a) && m.value.txid == data[1..4] && |m.value.options| >= 2
            && m.value.options[0] == DhcpOption(O_SERVERID, duid)
            && m.value.options[1] == DhcpOption(O_CLIENTID, r.client)
  {
    var r := ReadRequest(data).value;
    var m := ReplyTo(pool, duid, r, a).value;
    RequestFits(data);
    BodyFits(pool, r, a);
    forall o | o in m.options ensures Fits(o) {
      assert o == m.options[0] || o == m.options[1] || o in ReplyBody(pool, r, a);
    }
    MessageRoundTrip(m);
  }

  /** And when an address was granted, the IA_NA in the reply decodes to the client's id and that address. */
  lemma ReplyCarriesAddress(pool: Pool, duid: seq<byte>, r: Request, a: Addr)
    requires pool.prefixLen <= 64 && NeedsAddress(pool, r)
    ensures ReplyTo(pool, duid, r, a).Some?
    ensures var ia := DhcpCodec.Find(ReplyTo(pool, duid, r, a).value.options, O_IA_NA);
            IaidOf(ia) == r.iaid && AddressIn(ia) == Some(a)
  {
    IaNaRoundTrip(r.iaid, a);
    var ia := IaNa(r.iaid, a);
    var rest := [ia];
    FindHere(ia, []);
    if r.kind == SOLICIT && r.rapid {
      FindSkip(DhcpOption(O_RAPID_COMMIT, []), rest, O_IA_NA);
      rest := [DhcpOption(O_RAPID_COMMIT, [])] + rest;
    }
    assert ReplyBody(pool, r, a) == rest;
    FindSkip(DhcpOption(O_CLIENTID, r.client), rest, O_IA_NA);
    FindSkip(DhcpOption(O_SERVERID, duid), [DhcpOption(O_CLIENTID, r.client)] + rest, O_IA_NA);
    assert ReplyTo(pool, duid, r, a).value.options
        == [DhcpOption(O_SERVERID, duid)] + ([DhcpOption(O_CLIENTID, r.client)] + rest);
  }

  /** Off the link, the association in the reply says so and holds no address. */
  lemma StatusHasNoAddress(iaid: u32)
    ensures AddressIn(Some(IaNaStatus(iaid))) == None && Fits(IaNaStatus(iaid))
  {
    InnerOption(iaid, Status(S_NOTONLINK, "NotOnLink"));
    FindNone(Status(S_NOTONLINK, "NotOnLink"), O_IAADDR);
  }

  lemma BodyCarriesNone(pool: Pool, r: Request, a: Addr)
    requires pool.prefixLen <= 64 && Answered(r.kind) && !NeedsAddress(pool, r)
    ensures AddressIn(DhcpCodec.Find(ReplyBody(pool, r, a), O_IA_NA)) == None
  {
    StatusHasNoAddress(r.iaid);
    var last := if r.kind == RELEASE then Status(S_SUCCESS, "released")
                else if r.kind == DECLINE then Status(S_SUCCESS, "declined") else Association(pool, r, a);
    FindHere(last, []);
    FindNone(last, O_IA_NA);
    if r.kind == SOLICIT && r.rapid {
      FindSkip(DhcpOption(O_RAPID_COMMIT, []), [last], O_IA_NA);
    } else if r.kind != INFORMATION_REQUEST {
      assert ReplyBody(pool, r, a) == [last];
    }
  }

  /** And a reply that grants nothing carries no address at all. */
  lemma OtherRepliesCarryNone(pool: Pool, duid: seq<byte>, r: Request, a: Addr)
    requires pool.prefixLen <= 64 && Answered(r.kind) && !NeedsAddress(pool, r)
    ensures AddressIn(DhcpCodec.Find(ReplyTo(pool, duid, r, a).value.options, O_IA_NA)) == None
  {
    var rest := ReplyBody(pool, r, a);
    BodyCarriesNone(pool, r, a);
    FindSkip(DhcpOption(O_CLIENTID, r.client), rest, O_IA_NA);
    FindSkip(DhcpOption(O_SERVERID, duid), [DhcpOption(O_CLIENTID, r.client)] + rest, O_IA_NA);
    assert ReplyTo(pool, duid, r, a).value.options
        == [DhcpOption(O_SERVERID, duid)] + ([DhcpOption(O_CLIENTID, r.client)] + rest);
  }

  lemma FindNone(o: DhcpOption, code: u16)
    ensures o.code != code ==> DhcpCodec.Find([o], code) == None
  {
    assert [o][1..] == [];
  }

  /** End to end, for every request that is answered: the address a client reads from the bytes of the answer,
      if there is one, is the address its lease now holds, or `::`. */
  lemma AnswerIsLease(pool: Pool, duid: seq<byte>, data: seq<byte>, s: Book, now: nat, s': Book, a: Addr)
    requires pool.Valid() && |duid| <= 0xFFFF && ReadRequest(data).Some? && Safe(pool, s.leases, now)
    requires var r := ReadRequest(data).value; Answered(r.kind) && Handles(pool, s, r, now, s', a)
    ensures var r := ReadRequest(data).value;
            var m := ReadMessage(MessageBytes(ReplyTo(pool, duid, r, a).value));
            && m.Some? && Safe(pool, s'.leases, now)
            && AddressIn(DhcpCodec.Find(m.value.options, O_IA_NA)) == (if NeedsAddress(pool, r) then Some(a) else None)
            && (NeedsAddress(pool, r) && a != UNSPECIFIED ==> HoldsLease(s', r.Key(), a, now))
  {
    var r := ReadRequest(data).value;
    ReplyReadsBack(pool, duid, data, a);
    if NeedsAddress(pool, r) {
      ReplyCarriesAddress(pool, duid, r, a);
      AskKeepsSafe(pool, s, r.Key(), now, s', a);
    } else {
      OtherRepliesCarryNone(pool, duid, r, a);
      SubsetSafe(pool, s.leases, s'.leases, now);
    }
  }

  predicate HoldsLease(s: Book, c: Client, a: Addr, now: nat) {
    c in s.leases && s.leases[c].addr == a && s.leases[c].validUntil > now
  }

  lemma FindSkip(o: DhcpOption, os: seq<DhcpOption>, code: u16)
    requires o.code != code
    ensures DhcpCodec.Find([o] + os, code) == DhcpCodec.Find(os, code)
  {
    assert ([o] + os)[1..] == os;
  }

  lemma FindHere(o: DhcpOption, os: seq<DhcpOption>)
    ensures DhcpCodec.Find([o] + os, o.code) == Some(o)
  {
  }
}
