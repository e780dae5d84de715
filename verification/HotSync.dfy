/** The protocol by which the daemon replaces a counted array under the data plane's eyes: switch it off,
    clear every slot, fill, switch it on. Zone policies and QoS classes are replaced this way. */
module HotSync {
  import opened Types

  /** An array of the data plane and the slot of `CONFIG` that says how much of it is in use. */
  datatype Slots<T> = Slots(count: u32, slots: seq<T>)

  /** What a reader that stops at `max` goes through. */
  function InUse<T>(t: Slots<T>, max: u32): (s: seq<T>)
    ensures |s| <= max
  {
    t.slots[..Min(Min(t.count, max), |t.slots|)]
  }

  datatype Write<T> = SetCount(n: u32) | SetSlot(i: nat, e: T)

  function Apply<T>(t: Slots<T>, w: Write<T>): Slots<T> {
    match w
    case SetCount(n) => t.(count := n)
    case SetSlot(i, e) => if i < |t.slots| then t.(slots := t.slots[i := e]) else t
  }

  function ApplyAll<T>(t: Slots<T>, ws: seq<Write<T>>): Slots<T> {
    if ws == [] then t else Apply(ApplyAll(t, ws[..|ws| - 1]), ws[|ws| - 1])
  }

  function Clears<T>(n: nat, zero: T): (ws: seq<Write<T>>)
    ensures |ws| == n
  {
    seq(n, i requires 0 <= i => SetSlot(i, zero))
  }

  function Fills<T>(es: seq<T>): (ws: seq<Write<T>>)
    ensures |ws| == |es|
  {
    seq(|es|, i requires 0 <= i < |es| => SetSlot(i, es[i]))
  }

  function Kept<T>(entries: seq<T>, max: u32): (k: seq<T>)
    ensures |k| <= max
  {
    entries[..Min(|entries|, max)]
  }

  /** The single writes of a sync, in order. */
  function SyncWrites<T>(entries: seq<T>, max: u32, zero: T): seq<Write<T>> {
    [SetCount(0)] + Clears(max, zero) + Fills(Kept(entries, max)) + [SetCount(|Kept(entries, max)|)]
  }

  /** An array of the data plane and its count, rewritten in place. */
  class SlotMaps<T> {
    var count: u32
    const slots: array<T>
    const zero: T

    constructor (max: u32, zero: T)
      ensures fresh(slots) && slots.Length == max && count == 0 && this.zero == zero
    {
      slots := new T[max](_ => zero);
      count := 0;
      this.zero := zero;
    }

    ghost function Table(): Slots<T>
      reads this, slots
    {
      Slots(count, slots[..])
    }

    /** `sync_zone_policies` and `sync_qos_classes`: switch off, clear every slot, fill, switch on. */
    method Sync(entries: seq<T>)
      requires slots.Length <= MAX_U32
      modifies this, slots
      ensures Table() == ApplyAll(old(Table()), SyncWrites(entries, slots.Length, zero))
    {
      var max: u32 := slots.Length;
      ghost var t0, ws := Table(), SyncWrites(entries, max, zero);
      var kept := Kept(entries, max);
      assert ws[..1][..0] == [] && ws[0] == SetCount(0);
      count := 0;
      assert Table() == ApplyAll(t0, ws[..1]);
      ClearSlots(t0, ws);
      FillSlots(kept, t0, ws);
      assert ws[..|ws|] == ws && ws[..|ws| - 1] == ws[..1 + max + |kept|];
      assert ws[|ws| - 1] == SetCount(|kept|);
      count := |kept|;
    }

    method ClearSlots(ghost t0: Slots<T>, ghost ws: seq<Write<T>>)
      requires |ws| > slots.Length && ws[1..slots.Length + 1] == Clears(slots.Length, zero)
      requires Table() == ApplyAll(t0, ws[..1])
      modifies slots
      ensures Table() == ApplyAll(t0, ws[..1 + slots.Length])
    {
      for i := 0 to slots.Length
        invariant Table() == ApplyAll(t0, ws[..1 + i])
      {
        assert ws[1 + i] == ws[1..slots.Length + 1][i] == SetSlot(i, zero);
        assert ws[..2 + i][..1 + i] == ws[..1 + i];
        WriteSlot(i, zero);
      }
    }

    method FillSlots(kept: seq<T>, ghost t0: Slots<T>, ghost ws: seq<Write<T>>)
      requires |kept| <= slots.Length && |ws| > slots.Length + |kept|
      requires ws[1 + slots.Length..1 + slots.Length + |kept|] == Fills(kept)
      requires Table() == ApplyAll(t0, ws[..1 + slots.Length])
      modifies slots
      ensures Table() == ApplyAll(t0, ws[..1 + slots.Length + |kept|])
    {
      for i := 0 to |kept|
        invariant Table() == ApplyAll(t0, ws[..1 + slots.Length + i])
      {
        ghost var n := 1 + slots.Length + i;
        assert ws[n] == ws[1 + slots.Length..1 + slots.Length + |kept|][i] == SetSlot(i, kept[i]);
        assert ws[..n + 1][..n] == ws[..n];
        WriteSlot(i, kept[i]);
      }
    }

    method WriteSlot(i: nat, e: T)
      requires i < slots.Length
      modifies slots
      ensures Table() == Apply(old(Table()), SetSlot(i, e))
    {
      slots[i] := e;
    }
  }

  lemma {:induction false} OffUntilLastWrite<T>(t: Slots<T>, entries: seq<T>, max: u32, zero: T, n: nat)
    requires 0 < n < |SyncWrites(entries, max, zero)|
    ensures ApplyAll(t, SyncWrites(entries, max, zero)[..n]).count == 0
  {
    var ws := SyncWrites(entries, max, zero);
    assert ws[..n][..n - 1] == ws[..n - 1];
    if n == 1 {
      assert ws[..1][..0] == [];
    } else {
      assert ws[n - 1].SetSlot?;
      OffUntilLastWrite(t, entries, max, zero, n - 1);
    }
  }

  /** Between any two writes of a sync the part in use is the old one, nothing, or the new one. */
  lemma SyncReadsOldNoneOrNew<T>(t: Slots<T>, entries: seq<T>, max: u32, zero: T, n: nat)
    requires n <= |SyncWrites(entries, max, zero)| && |t.slots| == max
    ensures InUse(ApplyAll(t, SyncWrites(entries, max, zero)[..n]), max)
            == if n == 0 then InUse(t, max)
               else if n < |SyncWrites(entries, max, zero)| then []
               else Kept(entries, max)
  {
    var ws := SyncWrites(entries, max, zero);
    if n == 0 {
      assert ws[..0] == [];
    } else if n < |ws| {
      OffUntilLastWrite(t, entries, max, zero, n);
    } else {
      assert ws[..n] == ws && ws[..n][..n - 1] == ws[..n - 1];
      SlotsAfter(t, entries, max, zero, |ws| - 1);
      assert ApplyAll(t, ws).slots[..|Kept(entries, max)|] == Kept(entries, max);
    }
  }

  /** After a sync the array is the new entries, then zero slots; the count is theirs. */
  lemma SyncedArray<T>(t: Slots<T>, entries: seq<T>, max: u32, zero: T)
    requires |t.slots| == max
    ensures var s, kept := ApplyAll(t, SyncWrites(entries, max, zero)), Min(|entries|, max);
            && s.count == kept && |s.slots| == max
            && (forall j | 0 <= j < kept :: s.slots[j] == entries[j])
            && (forall j | kept <= j < max :: s.slots[j] == zero)
  {
    var ws := SyncWrites(entries, max, zero);
    SlotsAfter(t, entries, max, zero, |ws| - 1);
  }

  /** The array after the first `n` writes of a sync. */
  lemma {:induction false} SlotsAfter<T>(t: Slots<T>, entries: seq<T>, max: u32, zero: T, n: nat)
    requires 0 < n < |SyncWrites(entries, max, zero)| && |t.slots| == max
    ensures var s := ApplyAll(t, SyncWrites(entries, max, zero)[..n]).slots;
            && |s| == max
            && (forall j | 0 <= j < n - 1 - max :: s[j] == Kept(entries, max)[j])
            && (forall j | 0 <= j < max && n - 1 - max <= j < n - 1 :: s[j] == zero)
  {
    var ws := SyncWrites(entries, max, zero);
    assert ws[..n][..n - 1] == ws[..n - 1];
    if n == 1 {
      assert ws[..1][..0] == [];
    } else {
      SlotsAfter(t, entries, max, zero, n - 1);
      if n - 1 > max {
        assert ws[n - 1] == SetSlot(n - 2 - max, Kept(entries, max)[n - 2 - max]);
      }
    }
  }
}
