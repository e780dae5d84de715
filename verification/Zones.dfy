/** Zone policies: their compilation into an ordered array of entries, the hot re-sync of that array,
    and the data plane's first-match walk over it. */
module Zones {
  import opened Types
  import opened Bytes
  import HotSync

  const ZONE_MAX: u32 := 64

  type Prefix = p: int | 0 <= p <= 32

  /** A 32-bit word by its bits, the most significant first. */
  type Word = w: seq<bool> | |w| == 32 witness Copies(32, false)

  function Copies<T>(n: nat, x: T): (s: seq<T>)
    ensures |s| == n && forall i | 0 <= i < n :: s[i] == x
  {
    if n == 0 then [] else [x] + Copies(n - 1, x)
  }

  const ALL_ZEROS: Word := Copies(32, false)
  const ALL_ONES: Word := Copies(32, true)

  function WordOf(x: u32): Word {
    seq(32, i requires 0 <= i < 32 => ShiftRight(x, 31 - i) % 2 == 1)
  }

  /** Bitwise and. */
  function And(a: Word, b: Word): Word {
    seq(32, i requires 0 <= i < 32 => a[i] && b[i])
  }

  /** `w << k`. */
  function ShiftLeft(w: Word, k: Prefix): Word {
    w[k..] + Copies(k, false)
  }

  /** Entry of the `ZONE` array; interface 0 is "any". */
  datatype ZoneEntry = ZoneEntry(srcIfindex: u32, dstNet: Word, prefixLen: Prefix, action: byte)

  const ZERO_ENTRY := ZoneEntry(0, ALL_ZEROS, 0, ACTION_PASS)

  type ZoneTable = HotSync.Slots<ZoneEntry>

  function PrefixMask(p: Prefix): Word {
    if p == 0 then ALL_ZEROS else ShiftLeft(ALL_ONES, 32 - p)
  }

  predicate MatchesSubnet(net: (Word, Prefix), dst: Word) {
    And(dst, PrefixMask(net.1)) == net.0
  }

  predicate EntryMatches(e: ZoneEntry, ingress: u32, dst: Word) {
    && (e.srcIfindex == 0 || e.srcIfindex == ingress)
    && MatchesSubnet((e.dstNet, e.prefixLen), dst)
  }

  function FirstMatch(entries: seq<ZoneEntry>, ingress: u32, dst: Word): Option<byte> {
    if entries == [] then None
    else if EntryMatches(entries[0], ingress, dst) then Some(entries[0].action)
    else FirstMatch(entries[1..], ingress, dst)
  }

  /** What the data plane decides from a table. */
  function Decision(t: ZoneTable, ingress: u32, dst: Word): Option<byte> {
    FirstMatch(HotSync.InUse(t, ZONE_MAX), ingress, dst)
  }

  /** The bounded loop of the data plane. */
  method Lookup(t: ZoneTable, ingress: u32, dst: Word) returns (action: Option<byte>)
    ensures action == Decision(t, ingress, dst)
  {
    var count := Min(t.count, ZONE_MAX);
    ghost var used := HotSync.InUse(t, ZONE_MAX);
    var i := 0;
    while i < count
      invariant 0 <= i <= |used|
      invariant FirstMatch(used[i..], ingress, dst) == FirstMatch(used, ingress, dst)
    {
      if i >= |t.slots| {
        return None;
      }
      if EntryMatches(t.slots[i], ingress, dst) {
        return Some(t.slots[i].action);
      }
      assert used[i..][1..] == used[i + 1..];
      i := i + 1;
    }
    return None;
  }

  // ---------------------------------------------------------------- compilation

  /** A configured interface; `ifindex` is what the system resolves its name to. */
  datatype Interface = Interface(name: string, address: Option<Word>, netmask: Option<Word>, ifindex: Option<u32>)

  datatype ZonePolicy = ZonePolicy(
    id: nat, srcInterface: string, dstInterface: string, action: string, enabled: bool)

  const DEFAULT_NETMASK: Word := ShiftLeft(ALL_ONES, 8)

  function OnesIn(bits: seq<bool>): (c: nat)
    ensures c <= |bits|
  {
    if bits == [] then 0 else (if bits[0] then 1 else 0) + OnesIn(bits[1..])
  }

  /** `count_ones`. */
  function CountOnes(m: Word): Prefix {
    OnesIn(m)
  }

  function MaskOf(i: Interface): Word {
    if i.netmask.Some? then i.netmask.value else DEFAULT_NETMASK
  }

  function SubnetOf(i: Interface): (Word, Prefix) {
    if i.address.Some? then (And(i.address.value, MaskOf(i)), CountOnes(MaskOf(i))) else (ALL_ZEROS, 0)
  }

  function Find(ifs: seq<Interface>, name: string): Option<Interface> {
    if ifs == [] then None
    else if ifs[0].name == name then Some(ifs[0])
    else Find(ifs[1..], name)
  }

  function ActionOf(p: ZonePolicy): byte {
    if p.action == "drop" then ACTION_DROP else ACTION_PASS
  }

  /** An enabled policy whose two interfaces exist and resolve. */
  predicate Resolvable(p: ZonePolicy, ifs: seq<Interface>) {
    && p.enabled
    && var s, d := Find(ifs, p.srcInterface), Find(ifs, p.dstInterface);
    s.Some? && d.Some? && s.value.ifindex.Some? && d.value.ifindex.Some?
  }

  /** The two entries of a policy: source to destination network, and back. */
  function EntriesOf(p: ZonePolicy, ifs: seq<Interface>): seq<ZoneEntry> {
    if !Resolvable(p, ifs) then []
    else
      var s, d := Find(ifs, p.srcInterface).value, Find(ifs, p.dstInterface).value;
      var (sNet, sPrefix) := SubnetOf(s);
      var (dNet, dPrefix) := SubnetOf(d);
      [ZoneEntry(s.ifindex.value, dNet, dPrefix, ActionOf(p)),
       ZoneEntry(d.ifindex.value, sNet, sPrefix, ActionOf(p))]
  }

  function Entries(ps: seq<ZonePolicy>, ifs: seq<Interface>): seq<ZoneEntry> {
    if ps == [] then [] else Entries(ps[..|ps| - 1], ifs) + EntriesOf(ps[|ps| - 1], ifs)
  }

  /** `zone_entries_from_rows`. */
  method EntriesFromRows(rows: seq<ZonePolicy>, ifs: seq<Interface>) returns (out: seq<ZoneEntry>)
    ensures out == Entries(rows, ifs)
  {
    out := [];
    for i := 0 to |rows|
      invariant out == Entries(rows[..i], ifs)
    {
      assert rows[..i + 1][..i] == rows[..i];
      var p := rows[i];
      var s, d := Find(ifs, p.srcInterface), Find(ifs, p.dstInterface);
      if p.enabled && s.Some? && d.Some? && s.value.ifindex.Some? && d.value.ifindex.Some? {
        var (sNet, sPrefix) := SubnetOf(s.value);
        var (dNet, dPrefix) := SubnetOf(d.value);
        out := out + [ZoneEntry(s.value.ifindex.value, dNet, dPrefix, ActionOf(p))];
        out := out + [ZoneEntry(d.value.ifindex.value, sNet, sPrefix, ActionOf(p))];
      }
    }
    assert rows[..|rows|] == rows;
  }

  // ---------------------------------------------------------------- meaning of a policy list

  /** Membership by netmask, as an administrator reads an interface's address. */
  predicate InSubnet(i: Interface, a: Word) {
    i.address.None? || And(a, MaskOf(i)) == And(i.address.value, MaskOf(i))
  }

  predicate Arrives(i: Interface, ingress: u32)
    requires i.ifindex.Some?
  {
    i.ifindex.value == 0 || i.ifindex.value == ingress
  }

  /** The policy covers the packet in one of its two directions. */
  predicate PolicyMatches(p: ZonePolicy, ifs: seq<Interface>, ingress: u32, dst: Word) {
    && Resolvable(p, ifs)
    && var s, d := Find(ifs, p.srcInterface).value, Find(ifs, p.dstInterface).value;
    || (Arrives(s, ingress) && InSubnet(d, dst))
    || (Arrives(d, ingress) && InSubnet(s, dst))
  }

  /** The first policy, in list order, that covers the packet. */
  function FirstCovering(ps: seq<ZonePolicy>, ifs: seq<Interface>, ingress: u32, dst: Word): Option<ZonePolicy> {
    if ps == [] then None
    else
      var front, last := FirstCovering(ps[..|ps| - 1], ifs, ingress, dst), ps[|ps| - 1];
      if front.None? && PolicyMatches(last, ifs, ingress, dst) then Some(last) else front
  }

  function ActionOfSome(p: Option<ZonePolicy>): Option<byte> {
    if p.Some? then Some(ActionOf(p.value)) else None
  }

  function FirstPolicy(ps: seq<ZonePolicy>, ifs: seq<Interface>, ingress: u32, dst: Word): Option<byte> {
    ActionOfSome(FirstCovering(ps, ifs, ingress, dst))
  }

  /** An interface's network, bit by bit: every bit its netmask keeps, the first 24 if it has none. */
  predicate HasMember(i: Interface, a: Word) {
    i.address.Some? ==>
      forall b | 0 <= b < 32 ::
        (if i.netmask.Some? then i.netmask.value[b] else b < 24) ==> a[b] == i.address.value[b]
  }

  lemma MemberIff(i: Interface, a: Word)
    ensures InSubnet(i, a) <==> HasMember(i, a)
  {
    DefaultNetmask();
    if i.address.Some? { SameUnder(a, i.address.value, MaskOf(i)); }
  }

  /** Two words are equal under a mask when they agree wherever the mask is set. */
  lemma SameUnder(a: Word, b: Word, mask: Word)
    ensures And(a, mask) == And(b, mask) <==> forall i | 0 <= i < 32 :: mask[i] ==> a[i] == b[i]
  {
    var x, y := And(a, mask), And(b, mask);
    assert x == y <==> forall i | 0 <= i < 32 :: x[i] == y[i];
    assert forall i | 0 <= i < 32 :: x[i] == y[i] <==> (mask[i] ==> a[i] == b[i]);
  }

  lemma DefaultNetmask()
    ensures forall b | 0 <= b < 32 :: DEFAULT_NETMASK[b] <==> b < 24
  {
  }

  /** The first interface of a name. */
  predicate FirstNamed(ifs: seq<Interface>, name: string, n: nat) {
    n < |ifs| && ifs[n].name == name && forall m | 0 <= m < n :: ifs[m].name != name
  }

  lemma {:induction false} FindIff(ifs: seq<Interface>, name: string)
    ensures var r := Find(ifs, name);
            && (r.None? <==> forall m | 0 <= m < |ifs| :: ifs[m].name != name)
            && (r.Some? ==> exists n: nat :: FirstNamed(ifs, name, n) && r.value == ifs[n])
  {
    if ifs != [] {
      if ifs[0].name == name {
        assert FirstNamed(ifs, name, 0);
      } else {
        FindIff(ifs[1..], name);
        if Find(ifs, name).Some? {
          var n: nat :| FirstNamed(ifs[1..], name, n) && Find(ifs, name).value == ifs[1..][n];
          assert FirstNamed(ifs, name, n + 1);
        } else {
          assert forall m | 0 < m < |ifs| :: ifs[m] == ifs[1..][m - 1];
        }
      }
    }
  }

  lemma OneFirst(ifs: seq<Interface>, name: string, m: nat, n: nat)
    requires FirstNamed(ifs, name, m) && FirstNamed(ifs, name, n)
    ensures m == n
  {
  }

  /** The policy, enabled and between two interfaces that exist and resolve, covers the packet from one of them
      to the other's network. */
  predicate Covers(p: ZonePolicy, ifs: seq<Interface>, ingress: u32, dst: Word, m: nat, n: nat) {
    && p.enabled && FirstNamed(ifs, p.srcInterface, m) && FirstNamed(ifs, p.dstInterface, n)
    && ifs[m].ifindex.Some? && ifs[n].ifindex.Some?
    && (|| ((ifs[m].ifindex.value == 0 || ifs[m].ifindex.value == ingress) && HasMember(ifs[n], dst))
        || ((ifs[n].ifindex.value == 0 || ifs[n].ifindex.value == ingress) && HasMember(ifs[m], dst)))
  }

  lemma CoversIff(p: ZonePolicy, ifs: seq<Interface>, ingress: u32, dst: Word)
    ensures PolicyMatches(p, ifs, ingress, dst) <==> exists m: nat, n: nat :: Covers(p, ifs, ingress, dst, m, n)
  {
    FindIff(ifs, p.srcInterface);
    FindIff(ifs, p.dstInterface);
    if PolicyMatches(p, ifs, ingress, dst) {
      var m: nat :| FirstNamed(ifs, p.srcInterface, m) && Find(ifs, p.srcInterface).value == ifs[m];
      var n: nat :| FirstNamed(ifs, p.dstInterface, n) && Find(ifs, p.dstInterface).value == ifs[n];
      MemberIff(ifs[m], dst);
      MemberIff(ifs[n], dst);
      assert Covers(p, ifs, ingress, dst, m, n);
    }
    if m: nat, n: nat :| Covers(p, ifs, ingress, dst, m, n) {
      var m': nat :| FirstNamed(ifs, p.srcInterface, m') && Find(ifs, p.srcInterface).value == ifs[m'];
      var n': nat :| FirstNamed(ifs, p.dstInterface, n') && Find(ifs, p.dstInterface).value == ifs[n'];
      OneFirst(ifs, p.srcInterface, m, m');
      OneFirst(ifs, p.dstInterface, n, n');
      MemberIff(ifs[m], dst);
      MemberIff(ifs[n], dst);
    }
  }

  /** A policy drops when its action says so, and passes with any other word. */
  lemma ActionIff(p: ZonePolicy)
    ensures ActionOf(p) == (if p.action == "drop" then 0 else 1)
  {
  }

  function Enabled(ps: seq<ZonePolicy>): seq<ZonePolicy> {
    if ps == [] then []
    else Enabled(ps[..|ps| - 1]) + (if ps[|ps| - 1].enabled then [ps[|ps| - 1]] else [])
  }

  /** Disabled policies make no difference to any packet. */
  lemma {:induction false} DisabledIgnored(ps: seq<ZonePolicy>, ifs: seq<Interface>, ingress: u32, dst: Word)
    ensures FirstCovering(Enabled(ps), ifs, ingress, dst) == FirstCovering(ps, ifs, ingress, dst)
  {
    if ps != [] {
      var front, last := ps[..|ps| - 1], ps[|ps| - 1];
      DisabledIgnored(front, ifs, ingress, dst);
      if last.enabled {
        assert Enabled(ps)[..|Enabled(ps)| - 1] == Enabled(front);
      } else {
        assert Enabled(ps) == Enabled(front);
      }
    }
  }

  // ---------------------------------------------------------------- words and numbers

  /** The leading bits of two words agree exactly when the numbers do. */
  lemma {:induction false} LeadingBitsAgree(a: u32, b: u32, p: nat)
    requires p <= 32
    ensures (forall i | 0 <= i < p :: WordOf(a)[i] == WordOf(b)[i])
            <==> ShiftRight(a, 32 - p) == ShiftRight(b, 32 - p)
  {
    if p == 0 {
      TopOfU32(a);
      TopOfU32(b);
    } else {
      LeadingBitsAgree(a, b, p - 1);
      OneBit(a, 32 - p);
      OneBit(b, 32 - p);
      assert WordOf(a)[p - 1] == (ShiftRight(a, 32 - p) % 2 == 1);
      assert WordOf(b)[p - 1] == (ShiftRight(b, 32 - p) % 2 == 1);
      assert (forall i | 0 <= i < p :: WordOf(a)[i] == WordOf(b)[i])
        <==> (forall i | 0 <= i < p - 1 :: WordOf(a)[i] == WordOf(b)[i]) && WordOf(a)[p - 1] == WordOf(b)[p - 1];
    }
  }

  lemma TopOfU32(x: u32)
    ensures ShiftRight(x, 32) == 0
  {
    ValueOfU32(x);
    TopBitsDrop([], BytesOfU32(x), 0);
    assert [] + BytesOfU32(x) == BytesOfU32(x);
  }

  lemma OneBit(x: nat, k: nat)
    ensures ShiftRight(x, k) == 2 * ShiftRight(x, k + 1) + ShiftRight(x, k) % 2
  {
    ShiftRightAdd(x, k, 1);
    assert ShiftRight(ShiftRight(x, k), 1) == ShiftRight(x, k) / 2;
  }

  /** So an entry's prefix covers exactly the addresses that are its network's in the leading bits. */
  lemma PrefixIff(a: u32, net: u32, p: Prefix)
    ensures And(WordOf(a), PrefixMask(p)) == And(WordOf(net), PrefixMask(p))
            <==> ShiftRight(a, 32 - p) == ShiftRight(net, 32 - p)
  {
    LeadingBitsAgree(a, net, p);
    PrefixBits(p);
    SameUnder(WordOf(a), WordOf(net), PrefixMask(p));
    assert (forall i | 0 <= i < 32 :: PrefixMask(p)[i] ==> WordOf(a)[i] == WordOf(net)[i])
      <==> (forall i | 0 <= i < p :: WordOf(a)[i] == WordOf(net)[i]);
  }

  lemma PrefixBits(p: Prefix)
    ensures forall i | 0 <= i < 32 :: PrefixMask(p)[i] <==> i < p
  {
  }

  /** A netmask that is the prefix mask of its number of ones. */
  predicate Contiguous(m: Word) {
    m == PrefixMask(CountOnes(m))
  }

  ghost predicate ContiguousMasks(ifs: seq<Interface>) {
    forall i | i in ifs && i.address.Some? :: Contiguous(MaskOf(i))
  }

  lemma {:induction false} FirstMatchAppend(a: seq<ZoneEntry>, b: seq<ZoneEntry>, ingress: u32, dst: Word)
    ensures FirstMatch(a + b, ingress, dst)
            == if FirstMatch(a, ingress, dst).Some? then FirstMatch(a, ingress, dst) else FirstMatch(b, ingress, dst)
  {
    if a == [] {
      assert a + b == b;
    } else {
      assert (a + b)[1..] == a[1..] + b;
      FirstMatchAppend(a[1..], b, ingress, dst);
    }
  }

  lemma {:induction false} FindMember(ifs: seq<Interface>, name: string)
    requires Find(ifs, name).Some?
    ensures Find(ifs, name).value in ifs
  {
    if ifs[0].name != name { FindMember(ifs[1..], name); }
  }

  lemma SubnetEntryMeaning(i: Interface, dst: Word)
    requires i.address.Some? ==> Contiguous(MaskOf(i))
    ensures MatchesSubnet(SubnetOf(i), dst) <==> InSubnet(i, dst)
  {
    if i.address.None? {
      assert And(dst, ALL_ZEROS) == ALL_ZEROS;
    }
  }

  lemma FirstOfPair(e: ZoneEntry, f: ZoneEntry, ingress: u32, dst: Word)
    requires e.action == f.action
    ensures FirstMatch([e, f], ingress, dst)
            == if EntryMatches(e, ingress, dst) || EntryMatches(f, ingress, dst) then Some(e.action) else None
  {
    assert [f][1..] == [];
    assert FirstMatch([f], ingress, dst) == if EntryMatches(f, ingress, dst) then Some(f.action) else None;
    assert [e, f][1..] == [f];
  }

  lemma PolicyEntriesMeaning(p: ZonePolicy, ifs: seq<Interface>, ingress: u32, dst: Word)
    requires ContiguousMasks(ifs)
    ensures FirstMatch(EntriesOf(p, ifs), ingress, dst)
            == if PolicyMatches(p, ifs, ingress, dst) then Some(ActionOf(p)) else None
  {
    if Resolvable(p, ifs) {
      var s, d := Find(ifs, p.srcInterface).value, Find(ifs, p.dstInterface).value;
      FindMember(ifs, p.srcInterface);
      FindMember(ifs, p.dstInterface);
      SubnetEntryMeaning(s, dst);
      SubnetEntryMeaning(d, dst);
      FirstOfPair(EntriesOf(p, ifs)[0], EntriesOf(p, ifs)[1], ingress, dst);
    }
  }

  /** With contiguous netmasks the compiled list decides as the policies do. */
  lemma {:induction false} EntriesMeaning(ps: seq<ZonePolicy>, ifs: seq<Interface>, ingress: u32, dst: Word)
    requires ContiguousMasks(ifs)
    ensures FirstMatch(Entries(ps, ifs), ingress, dst) == FirstPolicy(ps, ifs, ingress, dst)
  {
    if ps != [] {
      EntriesMeaning(ps[..|ps| - 1], ifs, ingress, dst);
      PolicyEntriesMeaning(ps[|ps| - 1], ifs, ingress, dst);
      FirstMatchAppend(Entries(ps[..|ps| - 1], ifs), EntriesOf(ps[|ps| - 1], ifs), ingress, dst);
    }
  }

  /** The compiled subnet of an interface has the interface's members, for every destination. */
  ghost predicate FaithfulSubnet(i: Interface) {
    forall dst: Word :: MatchesSubnet(SubnetOf(i), dst) <==> InSubnet(i, dst)
  }

  /** The compiled subnet is right exactly when the netmask is contiguous. */
  lemma SubnetFaithfulIffContiguous(i: Interface)
    requires i.address.Some?
    ensures FaithfulSubnet(i) <==> Contiguous(MaskOf(i))
  {
    if Contiguous(MaskOf(i)) {
      forall dst: Word ensures MatchesSubnet(SubnetOf(i), dst) <==> InSubnet(i, dst) {
        SubnetEntryMeaning(i, dst);
      }
    } else {
      var dst := DisagreeingAddress(i.address.value, MaskOf(i), PrefixMask(CountOnes(MaskOf(i))));
      assert !(MatchesSubnet(SubnetOf(i), dst) <==> InSubnet(i, dst));
    }
  }

  /** Two different masks tell some address apart: one that differs in a bit only one mask keeps. */
  lemma DisagreeingAddress(a: Word, m: Word, k: Word) returns (dst: Word)
    requires m != k
    ensures !(And(dst, k) == And(a, m) <==> And(dst, m) == And(a, m))
  {
    var n := And(a, m);
    if And(n, k) != n {
      dst := n;
      assert And(n, m) == n;
    } else {
      var i :| 0 <= i < 32 && m[i] != k[i];
      dst := n[i := !n[i]];
      if k[i] {
        assert And(dst, m) == n;
        assert And(dst, k)[i] != n[i];
      } else {
        assert And(dst, k) == n by {
          forall j | 0 <= j < 32 ensures And(dst, k)[j] == n[j] { assert And(n, k)[j] == n[j]; }
        }
        assert And(dst, m)[i] != n[i];
      }
    }
  }

  // ---------------------------------------------------------------- hot sync

  function ZoneWrites(entries: seq<ZoneEntry>): seq<HotSync.Write<ZoneEntry>> {
    HotSync.SyncWrites(entries, ZONE_MAX, ZERO_ENTRY)
  }

  /** A reader between any two writes of a sync sees the old decision, none, or the new one. */
  lemma SyncReadsOldNoneOrNew(t: ZoneTable, entries: seq<ZoneEntry>, n: nat, ingress: u32, dst: Word)
    requires n <= |ZoneWrites(entries)| && |t.slots| == ZONE_MAX
    ensures Decision(HotSync.ApplyAll(t, ZoneWrites(entries)[..n]), ingress, dst)
            == if n == 0 then Decision(t, ingress, dst)
               else if n < |ZoneWrites(entries)| then None
               else FirstMatch(Kept(entries), ingress, dst)
  {
    HotSync.SyncReadsOldNoneOrNew(t, entries, ZONE_MAX, ZERO_ENTRY, n);
  }

  function Kept(entries: seq<ZoneEntry>): seq<ZoneEntry> {
    HotSync.Kept(entries, ZONE_MAX)
  }

  /** The cut at 64 entries falls between policies: the synced array decides as the longest run of
      leading policies whose entries fit. */
  lemma SyncedDecision(ps: seq<ZonePolicy>, ifs: seq<Interface>, t: ZoneTable, ingress: u32, dst: Word)
    returns (n: nat)
    requires ContiguousMasks(ifs) && |t.slots| == ZONE_MAX
    ensures n <= |ps| && |Entries(ps[..n], ifs)| <= 64
    ensures n < |ps| ==> |Entries(ps[..n + 1], ifs)| > 64
    ensures Decision(HotSync.ApplyAll(t, ZoneWrites(Entries(ps, ifs))), ingress, dst)
            == FirstPolicy(ps[..n], ifs, ingress, dst)
  {
    n := KeptPolicies(ps, ifs);
    var ws := ZoneWrites(Entries(ps, ifs));
    assert ws[..|ws|] == ws;
    SyncReadsOldNoneOrNew(t, Entries(ps, ifs), |ws|, ingress, dst);
    EntriesMeaning(ps[..n], ifs, ingress, dst);
  }

  lemma {:induction false} EntriesInPairs(ps: seq<ZonePolicy>, ifs: seq<Interface>)
    ensures |Entries(ps, ifs)| % 2 == 0
  {
    if ps != [] { EntriesInPairs(ps[..|ps| - 1], ifs); }
  }

  lemma LastDropped(ps: seq<ZonePolicy>, ifs: seq<Interface>)
    requires |Entries(ps, ifs)| > ZONE_MAX
    ensures ps != [] && Kept(Entries(ps, ifs)) == Kept(Entries(ps[..|ps| - 1], ifs))
  {
    assert ps != [];
    var front := ps[..|ps| - 1];
    EntriesInPairs(front, ifs);
    KeptPrefix(Entries(front, ifs), EntriesOf(ps[|ps| - 1], ifs));
  }

  lemma {:induction false} KeptPolicies(ps: seq<ZonePolicy>, ifs: seq<Interface>) returns (n: nat)
    ensures n <= |ps| && Kept(Entries(ps, ifs)) == Entries(ps[..n], ifs)
    ensures n < |ps| ==> |Entries(ps[..n + 1], ifs)| > ZONE_MAX
    decreases |ps|
  {
    var es := Entries(ps, ifs);
    assert ps[..|ps|] == ps;
    if |es| <= ZONE_MAX {
      n := |ps|;
    } else {
      LastDropped(ps, ifs);
      var front := ps[..|ps| - 1];
      n := KeptPolicies(front, ifs);
      assert ps[..n] == front[..n];
      if n < |front| { assert ps[..n + 1] == front[..n + 1]; }
    }
  }

  /** An even number of entries that does not fill the array leaves room for a pair. */
  lemma KeptPrefix(a: seq<ZoneEntry>, b: seq<ZoneEntry>)
    requires |a| % 2 == 0 && |b| <= 2 && |a + b| > ZONE_MAX
    ensures Kept(a + b) == Kept(a)
  {
    assert (a + b)[..ZONE_MAX] == a[..ZONE_MAX];
  }
}
