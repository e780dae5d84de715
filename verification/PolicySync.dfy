/** Hot re-sync of the prefilter tables and of the QoS classes, write by write. */
module PolicySync {
  import opened Types
  import opened Suricata
  import opened SuricataMeaning
  import opened Pipeline
  import Frames
  import HotSync

  // ---------------------------------------------------------------- QoS classes

  const ZERO_CLASS := QosConfig(0, 0, 0, 0, 0, 0, 0)

  function ClassWrites(entries: seq<QosConfig>): seq<HotSync.Write<QosConfig>> {
    HotSync.SyncWrites(entries, QOS_MAX, ZERO_CLASS)
  }

  /** A packet looking for its class between any two writes of a sync finds the old one, none, or the new one. */
  lemma QosReadsOldNoneOrNew(lim: Limits, entries: seq<QosConfig>, n: nat, ifindex: u32, h: Header)
    requires n <= |ClassWrites(entries)| && |lim.qosTable.slots| == QOS_MAX
    ensures var during := lim.(qosTable := HotSync.ApplyAll(lim.qosTable, ClassWrites(entries)[..n]));
            var kept := HotSync.Kept(entries, QOS_MAX);
            FoundClass(Classes(during), ifindex, h)
            == if n == 0 then FoundClass(Classes(lim), ifindex, h)
               else if n < |ClassWrites(entries)| then None
               else FoundClass(kept, ifindex, h)
  {
    HotSync.SyncReadsOldNoneOrNew(lim.qosTable, entries, QOS_MAX, ZERO_CLASS, n);
  }

  function FoundClass(classes: seq<QosConfig>, ifindex: u32, h: Header): Option<QosConfig> {
    var i := ClassFrom(classes, 0, ifindex, h);
    if i.Some? then Some(classes[i.value]) else None
  }

  // ---------------------------------------------------------------- the prefilter

  datatype Prefilter = Prefilter(on: bool, rules: SuriTuples)

  datatype Table = Dst | DstAny | Src | SrcAny

  function Keys(t: SuriTuples, which: Table): seq<LpmKey> {
    match which
    case Dst => t.dst
    case DstAny => t.dstAny
    case Src => t.src
    case SrcAny => t.srcAny
  }

  function WithKeys(t: SuriTuples, which: Table, keys: seq<LpmKey>): SuriTuples {
    match which
    case Dst => t.(dst := keys)
    case DstAny => t.(dstAny := keys)
    case Src => t.(src := keys)
    case SrcAny => t.(srcAny := keys)
  }

  datatype Write = Switch(on: bool) | Remove(which: Table, key: LpmKey) | Insert(which: Table, key: LpmKey)

  function Without(keys: seq<LpmKey>, k: LpmKey): (r: seq<LpmKey>)
    ensures forall x :: x in r <==> x in keys && x != k
  {
    if keys == [] then []
    else if keys[0] == k then Without(keys[1..], k)
    else [keys[0]] + Without(keys[1..], k)
  }

  function Apply(p: Prefilter, w: Write): Prefilter {
    match w
    case Switch(on) => p.(on := on)
    case Remove(which, k) => p.(rules := WithKeys(p.rules, which, Without(Keys(p.rules, which), k)))
    case Insert(which, k) => p.(rules := WithKeys(p.rules, which, Keys(p.rules, which) + [k]))
  }

  function ApplyAll(p: Prefilter, ws: seq<Write>): Prefilter {
    if ws == [] then p else Apply(ApplyAll(p, ws[..|ws| - 1]), ws[|ws| - 1])
  }

  function Removes(which: Table, keys: seq<LpmKey>): (ws: seq<Write>)
    ensures |ws| == |keys|
  {
    seq(|keys|, i requires 0 <= i < |keys| => Remove(which, keys[i]))
  }

  function Inserts(which: Table, keys: seq<LpmKey>): (ws: seq<Write>)
    ensures |ws| == |keys|
  {
    seq(|keys|, i requires 0 <= i < |keys| => Insert(which, keys[i]))
  }

  function Removals(listed: SuriTuples): seq<Write> {
    Removes(Dst, listed.dst) + Removes(DstAny, listed.dstAny) + Removes(Src, listed.src)
    + Removes(SrcAny, listed.srcAny)
  }

  function Insertions(t: SuriTuples): seq<Write> {
    Inserts(Dst, t.dst) + Inserts(DstAny, t.dstAny) + Inserts(Src, t.src) + Inserts(SrcAny, t.srcAny)
  }

  /** Clearing, by the keys a walk over each table lists, then filling. */
  function Rewrites(listed: SuriTuples, tuples: SuriTuples): seq<Write> {
    Removals(listed) + Insertions(tuples)
  }

  /** The single writes of `sync_suricata_rules`, in order. */
  function SyncWrites(listed: SuriTuples, tuples: SuriTuples, configured: bool): seq<Write> {
    [Switch(false)] + Rewrites(listed, tuples) + [Switch(configured && !tuples.IsEmpty())]
  }

  ghost predicate OthersKept(before: SuriTuples, after: SuriTuples, which: Table) {
    forall other | other != which :: Keys(after, other) == Keys(before, other)
  }

  lemma KeptTwice(a: SuriTuples, b: SuriTuples, c: SuriTuples, which: Table)
    requires OthersKept(a, b, which) && OthersKept(b, c, which)
    ensures OthersKept(a, c, which)
  {
  }

  lemma FourParts(done: seq<Write>, a: seq<Write>, b: seq<Write>, c: seq<Write>, d: seq<Write>)
    ensures done + a + b + c + d == done + (a + b + c + d)
  {
  }

  lemma AllWrites(listed: SuriTuples, tuples: SuriTuples, configured: bool, ws: seq<Write>)
    requires ws == [Switch(false)] + Removals(listed) + Insertions(tuples)
    ensures var all := SyncWrites(listed, tuples, configured);
            all[..|all| - 1] == ws && all[|all| - 1] == Switch(configured && !tuples.IsEmpty())
  {
    assert ws == [Switch(false)] + Rewrites(listed, tuples);
  }

  /** The order in which the tables are cleared. */
  function Next(which: Table): Table {
    match which
    case Dst => DstAny
    case DstAny => Src
    case _ => SrcAny
  }

  predicate SameFrom(which: Table, a: SuriTuples, b: SuriTuples) {
    match which
    case Dst => a == b
    case DstAny => a == b.(dst := a.dst)
    case Src => a.src == b.src && a.srcAny == b.srcAny
    case SrcAny => a.srcAny == b.srcAny
  }

  lemma KeptTable(before: SuriTuples, after: SuriTuples, which: Table)
    requires OthersKept(before, after, which)
    ensures after == WithKeys(before, which, Keys(after, which))
  {
    assert Keys(after, Dst) == Keys(before, Dst) || which == Dst;
    assert Keys(after, DstAny) == Keys(before, DstAny) || which == DstAny;
    assert Keys(after, Src) == Keys(before, Src) || which == Src;
    assert Keys(after, SrcAny) == Keys(before, SrcAny) || which == SrcAny;
  }

  /** The four tables and the switch, rewritten in place. */
  class PrefilterMaps {
    var on: bool
    var rules: SuriTuples

    constructor ()
      ensures State() == Prefilter(false, NO_TUPLES)
    {
      on, rules := false, NO_TUPLES;
    }

    ghost function State(): Prefilter
      reads this
    {
      Prefilter(on, rules)
    }

    /** `sync_suricata_rules`: switch off, clear the four tables, fill them, switch on if there is anything. */
    method Sync(tuples: SuriTuples, configured: bool)
      modifies this
      ensures State() == ApplyAll(old(State()), SyncWrites(old(rules), tuples, configured))
    {
      ghost var s0 := State();
      on := false;
      ghost var first := [Switch(false)];
      assert first[..0] == [];
      ghost var cleared := ClearAll(s0, first);
      ghost var filled := FillAll(tuples, s0, cleared);
      on := configured && !tuples.IsEmpty();
      AllWrites(s0.rules, tuples, configured, filled);
    }

    method ClearAll(ghost s0: Prefilter, ghost done: seq<Write>) returns (ghost done': seq<Write>)
      requires State() == ApplyAll(s0, done)
      modifies this`rules
      ensures done' == done + Removals(old(rules)) && State() == ApplyAll(s0, done')
    {
      ghost var listed := rules;
      done' := ClearNext(Dst, listed, s0, done);
      done' := ClearNext(DstAny, listed, s0, done');
      done' := ClearNext(Src, listed, s0, done');
      done' := ClearNext(SrcAny, listed, s0, done');
      FourParts(done, Removes(Dst, listed.dst), Removes(DstAny, listed.dstAny), Removes(Src, listed.src),
                Removes(SrcAny, listed.srcAny));
    }

    /** One table of four: those after it in the order are still as `listed`. */
    method ClearNext(which: Table, ghost listed: SuriTuples, ghost s0: Prefilter, ghost done: seq<Write>)
      returns (ghost done': seq<Write>)
      requires State() == ApplyAll(s0, done) && SameFrom(which, listed, rules)
      modifies this`rules
      ensures done' == done + Removes(which, Keys(listed, which)) && State() == ApplyAll(s0, done')
      ensures which != SrcAny ==> SameFrom(Next(which), listed, rules)
    {
      done' := Clear(which, s0, done);
      KeptTable(old(rules), rules, which);
    }

    method FillAll(t: SuriTuples, ghost s0: Prefilter, ghost done: seq<Write>) returns (ghost done': seq<Write>)
      requires State() == ApplyAll(s0, done)
      modifies this`rules
      ensures done' == done + Insertions(t) && State() == ApplyAll(s0, done')
    {
      done' := Fill(Dst, t.dst, s0, done);
      done' := Fill(DstAny, t.dstAny, s0, done');
      done' := Fill(Src, t.src, s0, done');
      done' := Fill(SrcAny, t.srcAny, s0, done');
    }

    /** `clear_lpm`: lists the keys of a table, then removes them one by one. */
    method Clear(which: Table, ghost s0: Prefilter, ghost done: seq<Write>) returns (ghost done': seq<Write>)
      requires State() == ApplyAll(s0, done)
      modifies this`rules
      ensures done' == done + Removes(which, Keys(old(rules), which)) && State() == ApplyAll(s0, done')
      ensures OthersKept(old(rules), rules, which)
    {
      var keys := Keys(rules, which);
      ghost var ws := Removes(which, keys);
      done' := done;
      assert ws[..0] == [];
      for i := 0 to |keys|
        invariant done' == done + ws[..i] && State() == ApplyAll(s0, done')
        invariant OthersKept(old(rules), rules, which)
      {
        assert ws[..i + 1] == ws[..i] + [ws[i]];
        ghost var before := rules;
        done' := RemoveKey(which, keys[i], s0, done');
        KeptTwice(old(rules), before, rules, which);
      }
      assert ws[..|keys|] == ws;
    }

    method Fill(which: Table, keys: seq<LpmKey>, ghost s0: Prefilter, ghost done: seq<Write>)
      returns (ghost done': seq<Write>)
      requires State() == ApplyAll(s0, done)
      modifies this`rules
      ensures done' == done + Inserts(which, keys) && State() == ApplyAll(s0, done')
    {
      ghost var ws := Inserts(which, keys);
      done' := done;
      assert ws[..0] == [];
      for i := 0 to |keys|
        invariant done' == done + ws[..i] && State() == ApplyAll(s0, done')
      {
        assert ws[..i + 1] == ws[..i] + [ws[i]];
        done' := InsertKey(which, keys[i], s0, done');
      }
      assert ws[..|keys|] == ws;
    }

    method RemoveKey(which: Table, k: LpmKey, ghost s0: Prefilter, ghost done: seq<Write>)
      returns (ghost done': seq<Write>)
      requires State() == ApplyAll(s0, done)
      modifies this`rules
      ensures done' == done + [Remove(which, k)] && State() == ApplyAll(s0, done')
      ensures OthersKept(old(rules), rules, which)
    {
      done' := done + [Remove(which, k)];
      assert done'[..|done|] == done;
      rules := WithKeys(rules, which, Without(Keys(rules, which), k));
    }

    method InsertKey(which: Table, k: LpmKey, ghost s0: Prefilter, ghost done: seq<Write>)
      returns (ghost done': seq<Write>)
      requires State() == ApplyAll(s0, done)
      modifies this`rules
      ensures done' == done + [Insert(which, k)] && State() == ApplyAll(s0, done')
    {
      done' := done + [Insert(which, k)];
      assert done'[..|done|] == done;
      rules := WithKeys(rules, which, Keys(rules, which) + [k]);
    }
  }

  /** The walk lists every key of every table. */
  ghost predicate Lists(listed: SuriTuples, rules: SuriTuples) {
    forall which, k | k in Keys(rules, which) :: k in Keys(listed, which)
  }

  /** What the prefilter lets through. */
  predicate LetsThrough(p: Prefilter, f: Flow) {
    !p.on || PrefilterHit(p.rules, f)
  }

  lemma {:induction false} ApplyAppend(p: Prefilter, a: seq<Write>, b: seq<Write>)
    ensures ApplyAll(p, a + b) == ApplyAll(ApplyAll(p, a), b)
    decreases |b|
  {
    if b == [] {
      assert a + b == a;
    } else {
      assert (a + b)[..|a + b| - 1] == a + b[..|b| - 1];
      ApplyAppend(p, a, b[..|b| - 1]);
    }
  }

  /** Removing listed keys from one table leaves the keys not listed, and the rest alone. */
  lemma {:induction false} RemovesApply(p: Prefilter, which: Table, keys: seq<LpmKey>)
    ensures var q := ApplyAll(p, Removes(which, keys));
            && q == p.(rules := WithKeys(p.rules, which, Keys(q.rules, which)))
            && forall k :: k in Keys(q.rules, which) <==> k in Keys(p.rules, which) && k !in keys
    decreases |keys|
  {
    if keys != [] {
      var front := keys[..|keys| - 1];
      RemovesApply(p, which, front);
      assert Removes(which, keys)[..|keys| - 1] == Removes(which, front);
      assert keys == front + [keys[|keys| - 1]];
    }
  }

  lemma RemovesClear(p: Prefilter, which: Table, keys: seq<LpmKey>)
    requires forall k | k in Keys(p.rules, which) :: k in keys
    ensures ApplyAll(p, Removes(which, keys)) == p.(rules := WithKeys(p.rules, which, []))
  {
    RemovesApply(p, which, keys);
    SomeMember(Keys(ApplyAll(p, Removes(which, keys)).rules, which));
  }

  lemma SomeMember(keys: seq<LpmKey>)
    ensures keys == [] || exists k :: k in keys
  {
    if keys != [] { assert keys[0] in keys; }
  }

  lemma {:induction false} InsertsApply(p: Prefilter, which: Table, keys: seq<LpmKey>)
    ensures ApplyAll(p, Inserts(which, keys)) == p.(rules := WithKeys(p.rules, which, Keys(p.rules, which) + keys))
    decreases |keys|
  {
    if keys != [] {
      var front := keys[..|keys| - 1];
      InsertsApply(p, which, front);
      assert Inserts(which, keys)[..|keys| - 1] == Inserts(which, front);
      assert Keys(p.rules, which) + keys == Keys(p.rules, which) + front + [keys[|keys| - 1]];
    } else {
      assert Keys(p.rules, which) + keys == Keys(p.rules, which);
    }
  }

  lemma ClearsDsts(p: Prefilter, listed: SuriTuples)
    requires Lists(listed, p.rules)
    ensures ApplyAll(p, Removes(Dst, listed.dst) + Removes(DstAny, listed.dstAny))
            == p.(rules := p.rules.(dst := [], dstAny := []))
  {
    ListedIn(listed, p.rules);
    RemovesClear(p, Dst, listed.dst);
    var p1 := p.(rules := p.rules.(dst := []));
    assert Keys(p1.rules, DstAny) == p.rules.dstAny;
    ClearsNext(p, Removes(Dst, listed.dst), p1, DstAny, listed.dstAny);
  }

  lemma ClearsAll(p: Prefilter, listed: SuriTuples)
    requires Lists(listed, p.rules)
    ensures ApplyAll(p, Removals(listed)) == p.(rules := NO_TUPLES)
  {
    var dsts, c := Removes(Dst, listed.dst) + Removes(DstAny, listed.dstAny), Removes(Src, listed.src);
    ClearsDsts(p, listed);
    var p2 := p.(rules := p.rules.(dst := [], dstAny := []));
    ListedIn(listed, p.rules);
    assert Keys(p2.rules, Src) == p.rules.src;
    ClearsNext(p, dsts, p2, Src, listed.src);
    var p3 := p2.(rules := p2.rules.(src := []));
    assert Keys(p3.rules, SrcAny) == p.rules.srcAny;
    ClearsNext(p, dsts + c, p3, SrcAny, listed.srcAny);
  }

  /** The writes so far led from `p` to `q`; one more table is cleared. */
  lemma ClearsNext(p: Prefilter, ws: seq<Write>, q: Prefilter, which: Table, keys: seq<LpmKey>)
    requires ApplyAll(p, ws) == q && forall k | k in Keys(q.rules, which) :: k in keys
    ensures ApplyAll(p, ws + Removes(which, keys)) == q.(rules := WithKeys(q.rules, which, []))
  {
    ApplyAppend(p, ws, Removes(which, keys));
    RemovesClear(q, which, keys);
  }

  lemma ListedIn(listed: SuriTuples, rules: SuriTuples)
    requires Lists(listed, rules)
    ensures (forall k | k in rules.dst :: k in listed.dst) && (forall k | k in rules.dstAny :: k in listed.dstAny)
    ensures (forall k | k in rules.src :: k in listed.src) && (forall k | k in rules.srcAny :: k in listed.srcAny)
  {
    forall k | k in rules.dst ensures k in listed.dst { assert k in Keys(rules, Dst); }
    forall k | k in rules.dstAny ensures k in listed.dstAny { assert k in Keys(rules, DstAny); }
    forall k | k in rules.src ensures k in listed.src { assert k in Keys(rules, Src); }
    forall k | k in rules.srcAny ensures k in listed.srcAny { assert k in Keys(rules, SrcAny); }
  }

  lemma FillsAll(p: Prefilter, t: SuriTuples)
    requires p.rules == NO_TUPLES
    ensures ApplyAll(p, Insertions(t)) == p.(rules := t)
  {
    var a, b, c := Inserts(Dst, t.dst), Inserts(DstAny, t.dstAny), Inserts(Src, t.src);
    assert [] + a == a;
    FillsNext(p, [], p, Dst, t.dst);
    var p1 := p.(rules := p.rules.(dst := t.dst));
    FillsNext(p, a, p1, DstAny, t.dstAny);
    var p2 := p1.(rules := p1.rules.(dstAny := t.dstAny));
    FillsNext(p, a + b, p2, Src, t.src);
    var p3 := p2.(rules := p2.rules.(src := t.src));
    FillsNext(p, a + b + c, p3, SrcAny, t.srcAny);
  }

  lemma FillsNext(p: Prefilter, ws: seq<Write>, q: Prefilter, which: Table, keys: seq<LpmKey>)
    requires ApplyAll(p, ws) == q && Keys(q.rules, which) == []
    ensures ApplyAll(p, ws + Inserts(which, keys)) == q.(rules := WithKeys(q.rules, which, keys))
  {
    ApplyAppend(p, ws, Inserts(which, keys));
    InsertsApply(q, which, keys);
    assert [] + keys == keys;
  }

  lemma RewritesReplace(p: Prefilter, listed: SuriTuples, tuples: SuriTuples)
    requires Lists(listed, p.rules)
    ensures ApplyAll(p, Rewrites(listed, tuples)) == p.(rules := tuples)
  {
    ClearsAll(p, listed);
    FillsAll(p.(rules := NO_TUPLES), tuples);
    ApplyAppend(p, Removals(listed), Insertions(tuples));
  }

  predicate NoSwitch(ws: seq<Write>) {
    forall i | 0 <= i < |ws| :: !ws[i].Switch?
  }

  lemma {:induction false} OffThroughout(p: Prefilter, ws: seq<Write>)
    requires !p.on && NoSwitch(ws)
    ensures !ApplyAll(p, ws).on
  {
    if ws != [] { OffThroughout(p, ws[..|ws| - 1]); }
  }

  lemma NoSwitchAppend(a: seq<Write>, b: seq<Write>)
    requires NoSwitch(a) && NoSwitch(b)
    ensures NoSwitch(a + b)
  {
    var ws := a + b;
    forall i | 0 <= i < |ws| ensures !ws[i].Switch? {
      assert ws[i] == if i < |a| then a[i] else b[i - |a|];
    }
  }

  lemma RewritesKeepSwitch(listed: SuriTuples, tuples: SuriTuples)
    ensures NoSwitch(Rewrites(listed, tuples))
  {
    var a, b := Removes(Dst, listed.dst) + Removes(DstAny, listed.dstAny), Removes(Src, listed.src);
    var c, d := Inserts(Dst, tuples.dst) + Inserts(DstAny, tuples.dstAny), Inserts(Src, tuples.src);
    NoSwitchAppend(a, b);
    NoSwitchAppend(a + b, Removes(SrcAny, listed.srcAny));
    NoSwitchAppend(c, d);
    NoSwitchAppend(c + d, Inserts(SrcAny, tuples.srcAny));
    NoSwitchAppend(Removals(listed), Insertions(tuples));
  }

  /** A packet between any two writes of a sync meets the old prefilter, none, or the new one. */
  lemma PrefilterReadsOldNoneOrNew(
    p: Prefilter, listed: SuriTuples, tuples: SuriTuples, configured: bool, n: nat, f: Flow)
    requires Lists(listed, p.rules) && n <= |SyncWrites(listed, tuples, configured)|
    ensures LetsThrough(ApplyAll(p, SyncWrites(listed, tuples, configured)[..n]), f)
            <==> if n == 0 then LetsThrough(p, f)
                 else if n < |SyncWrites(listed, tuples, configured)| then true
                 else LetsThrough(Prefilter(configured && !tuples.IsEmpty(), tuples), f)
  {
    var ws, body := SyncWrites(listed, tuples, configured), Rewrites(listed, tuples);
    var off := p.(on := false);
    assert ApplyAll(p, [Switch(false)]) == off by { assert [Switch(false)][..0] == []; }
    if n == 0 {
      assert ws[..0] == [];
    } else if n < |ws| {
      var part := body[..n - 1];
      assert ws[..n] == [Switch(false)] + part;
      ApplyAppend(p, [Switch(false)], part);
      RewritesKeepSwitch(listed, tuples);
      OffThroughout(off, part);
    } else {
      assert ws[..n] == ws && ws[..|ws| - 1] == [Switch(false)] + body;
      ApplyAppend(p, [Switch(false)], body);
      RewritesReplace(off, listed, tuples);
    }
  }

  /** End to end: after a sync of all rules, a flow is let through exactly when the prefilter is off, for
      want of configuration or of tuples, or a contributing rule's header matches it one way or the other. */
  lemma SyncedPrefilterMeaning(p: Prefilter, listed: SuriTuples, rules: seq<SuriRule>, configured: bool, f: Flow)
    requires Lists(listed, p.rules)
    ensures LetsThrough(ApplyAll(p, SyncWrites(listed, AllTuples(rules), configured)), f)
            <==> || !configured || AllTuples(rules).IsEmpty()
                 || SomeRuleMatches(rules, f)
  {
    var ws := SyncWrites(listed, AllTuples(rules), configured);
    assert ws[..|ws|] == ws;
    PrefilterReadsOldNoneOrNew(p, listed, AllTuples(rules), configured, |ws|, f);
    PrefilterMeaning(rules, f);
  }

  /** With the prefilter on, a new IPv4 flow whose protocol has ports in the rules but none in the reader is
      dropped, whatever the rules say. SCTP is the one such protocol a rule can name. */
  lemma UnreadPortsAreDropped(pol: Policy, rules: seq<SuriRule>, ifindex: u32, pkt: seq<byte>)
    requires |pkt| <= MAX_U32 && Frames.ReadFrame(ifindex, pkt).Some? && Frames.ReadFrame(ifindex, pkt).value.l3.Ip?
    requires pol.prefilter && pol.rules == AllTuples(rules)
    requires var h := Frames.ReadFrame(ifindex, pkt).value.l3.h;
             h.isV4 && h.proto != IPPROTO_TCP && h.proto != IPPROTO_UDP && !Portless(h.proto)
    ensures var f := Frames.ReadFrame(ifindex, pkt).value; Gate(pol, f, f.l3.h) == Some(PrefilterMiss)
  {
    PrefilterMissesPortless(rules, Frames.ReadFrame(ifindex, pkt).value.l3.h.Ipv4Flow());
  }

  lemma OnlySctpIsUnread(name: string)
    ensures ProtoByte(name).Some? && !Portless(ProtoByte(name).value)
            ==> ProtoByte(name).value == IPPROTO_TCP || ProtoByte(name).value == IPPROTO_UDP || name == "sctp"
  {
  }
}
