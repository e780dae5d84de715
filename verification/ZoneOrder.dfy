/** Zone policies are evaluated in the order they were added. The order of their ids, in which they are
    listed and loaded, is the same order only for some additions. */
module ZoneOrder {
  import opened Types
  import opened Zones

  datatype ZoneRequest = ZoneRequest(srcInterface: string, dstInterface: string, action: string, id: nat)

  /** The list of policies, changed in place by the API; id 0 in a request asks for the next free one. */
  class PolicyList {
    var rows: seq<ZonePolicy>
    var nextId: nat

    constructor ()
      ensures rows == [] && nextId == 1
    {
      rows, nextId := [], 1;
    }

    /** Every id given out is below the next one. */
    ghost predicate Valid()
      reads this
    {
      nextId > 0 && forall r | r in rows :: r.id < nextId
    }

    /** `add_zone_policy`: an id in use is refused; otherwise the policy goes to the end of the list,
        whatever its id. */
    method Add(req: ZoneRequest) returns (ok: bool)
      requires Valid()
      modifies this
      ensures Valid()
      ensures ok <==> forall r | r in old(rows) :: r.id != req.id || req.id == 0
      ensures !ok ==> rows == old(rows) && nextId == old(nextId)
      ensures ok ==> rows == old(rows) + [Row(req, if req.id > 0 then req.id else old(nextId))]
      ensures ok && req.id == 0 ==> forall r | r in old(rows) :: r.id < rows[|rows| - 1].id
    {
      var id := req.id;
      if id > 0 {
        if exists r | r in rows :: r.id == id { return false; }
      } else {
        id := nextId;
        nextId := nextId + 1;
      }
      rows := rows + [Row(req, id)];
      nextId := Max(nextId, id + 1);
      return true;
    }
  }

  function Row(req: ZoneRequest, id: nat): ZonePolicy {
    ZonePolicy(id, req.srcInterface, req.dstInterface, req.action, true)
  }

  // ---------------------------------------------------------------- order of ids

  predicate Ascending(ps: seq<ZonePolicy>) {
    forall i, j | 0 <= i < j < |ps| :: ps[i].id < ps[j].id
  }

  predicate AboveAll(p: ZonePolicy, ps: seq<ZonePolicy>) {
    forall i | 0 <= i < |ps| :: ps[i].id < p.id
  }

  /** A list in the order of ids stays so exactly when the new id is above every id in it. An id the list
      gives out itself always is. */
  lemma AddKeepsOrderIff(ps: seq<ZonePolicy>, p: ZonePolicy)
    requires Ascending(ps)
    ensures Ascending(ps + [p]) <==> AboveAll(p, ps)
  {
    var all := ps + [p];
    if Ascending(all) {
      forall i | 0 <= i < |ps| ensures ps[i].id < p.id {
        assert all[i].id < all[|ps|].id;
      }
    }
  }

  // ---------------------------------------------------------------- decisions

  /** The policy with the lowest id that covers the packet. */
  function LowestCovering(ps: seq<ZonePolicy>, ifs: seq<Interface>, ingress: u32, dst: Word): Option<ZonePolicy> {
    if ps == [] then None
    else
      var front, last := LowestCovering(ps[..|ps| - 1], ifs, ingress, dst), ps[|ps| - 1];
      if PolicyMatches(last, ifs, ingress, dst) && (front.None? || last.id < front.value.id) then Some(last) else front
  }

  /** What the lowest covering policy is: one of the list that covers the packet, with no lower one, or none
      when no policy covers it. */
  lemma {:induction false} LowestCoveringMeaning(ps: seq<ZonePolicy>, ifs: seq<Interface>, ingress: u32, dst: Word)
    ensures var r := LowestCovering(ps, ifs, ingress, dst);
            && (r.None? ==> forall p | p in ps :: !PolicyMatches(p, ifs, ingress, dst))
            && (r.Some? ==> r.value in ps && PolicyMatches(r.value, ifs, ingress, dst)
                            && forall p | p in ps && PolicyMatches(p, ifs, ingress, dst) :: r.value.id <= p.id)
  {
    if ps != [] {
      var front, last := ps[..|ps| - 1], ps[|ps| - 1];
      LowestCoveringMeaning(front, ifs, ingress, dst);
      assert ps == front + [last];
      assert forall p :: p in ps <==> p in front || p == last;
    }
  }

  /** In a list in the order of ids the first is the lowest. */
  lemma {:induction false} AscendingFirstIsLowest(ps: seq<ZonePolicy>, ifs: seq<Interface>, ingress: u32, dst: Word)
    requires Ascending(ps)
    ensures FirstCovering(ps, ifs, ingress, dst) == LowestCovering(ps, ifs, ingress, dst)
  {
    if ps != [] {
      var front, last := ps[..|ps| - 1], ps[|ps| - 1];
      AscendingFirstIsLowest(front, ifs, ingress, dst);
      LowestCoveringMeaning(front, ifs, ingress, dst);
      assert forall p | p in front :: p.id < last.id by {
        forall p | p in front ensures p.id < last.id {
          var i :| 0 <= i < |front| && front[i] == p;
          assert ps[i].id < ps[|ps| - 1].id;
        }
      }
    }
  }

  /** The data plane decides the packet as the order of ids would. */
  predicate DecidesById(ps: seq<ZonePolicy>, ifs: seq<Interface>, ingress: u32, dst: Word) {
    FirstPolicy(ps, ifs, ingress, dst) == ActionOfSome(LowestCovering(ps, ifs, ingress, dst))
  }

  lemma {:induction false} FirstIffLowest(ps: seq<ZonePolicy>, ifs: seq<Interface>, ingress: u32, dst: Word)
    ensures FirstCovering(ps, ifs, ingress, dst).Some? <==> LowestCovering(ps, ifs, ingress, dst).Some?
  {
    if ps != [] { FirstIffLowest(ps[..|ps| - 1], ifs, ingress, dst); }
  }

  /** What one more addition does to any list: a covering policy with a new lowest id makes the orders agree on
      the packet exactly when it comes first too or acts as the first does, and any other changes nothing. */
  lemma AddDecidesByIdIff(ps: seq<ZonePolicy>, p: ZonePolicy, ifs: seq<Interface>, ingress: u32, dst: Word)
    ensures var first, low := FirstCovering(ps, ifs, ingress, dst), LowestCovering(ps, ifs, ingress, dst);
            DecidesById(ps + [p], ifs, ingress, dst)
            <==> if PolicyMatches(p, ifs, ingress, dst) && (low.None? || p.id < low.value.id)
                 then first.None? || ActionOf(p) == ActionOf(first.value)
                 else DecidesById(ps, ifs, ingress, dst)
  {
    assert (ps + [p])[..|ps|] == ps;
    FirstIffLowest(ps, ifs, ingress, dst);
  }

  /** The new policy comes too late: an older one with a higher id already decides the packet otherwise. */
  predicate Overruled(ps: seq<ZonePolicy>, p: ZonePolicy, ifs: seq<Interface>, ingress: u32, dst: Word) {
    var first := FirstCovering(ps, ifs, ingress, dst);
    && PolicyMatches(p, ifs, ingress, dst) && first.Some?
    && p.id < first.value.id && ActionOf(p) != ActionOf(first.value)
  }

  /** So the first addition out of order makes them differ on exactly the packets on which it is overruled. */
  lemma FirstOutOfOrder(ps: seq<ZonePolicy>, p: ZonePolicy, ifs: seq<Interface>, ingress: u32, dst: Word)
    requires Ascending(ps) && forall q | q in ps :: q.id != p.id
    ensures DecidesById(ps + [p], ifs, ingress, dst) <==> !Overruled(ps, p, ifs, ingress, dst)
  {
    AscendingFirstIsLowest(ps, ifs, ingress, dst);
    AddDecidesByIdIff(ps, p, ifs, ingress, dst);
  }

  ghost predicate SameMembers(ps: seq<ZonePolicy>, qs: seq<ZonePolicy>) {
    forall p :: p in ps <==> p in qs
  }

  lemma OneIdOnePolicy(ps: seq<ZonePolicy>, p: ZonePolicy, q: ZonePolicy)
    requires Ascending(ps) && p in ps && q in ps && p.id == q.id
    ensures p == q
  {
    var i :| 0 <= i < |ps| && ps[i] == p;
    var j :| 0 <= j < |ps| && ps[j] == q;
    assert i == j;
  }

  /** Restarting the daemon, which loads the policies by id, leaves the decision on a packet alone exactly when
      the list it held decided that packet by id, whatever additions made that list. */
  lemma RestartDecidesAlikeIff(
    ps: seq<ZonePolicy>, loaded: seq<ZonePolicy>, ifs: seq<Interface>, ingress: u32, dst: Word)
    requires Ascending(loaded) && SameMembers(loaded, ps)
    ensures FirstPolicy(loaded, ifs, ingress, dst) == FirstPolicy(ps, ifs, ingress, dst)
            <==> DecidesById(ps, ifs, ingress, dst)
  {
    AscendingFirstIsLowest(loaded, ifs, ingress, dst);
    LowestCoveringMeaning(loaded, ifs, ingress, dst);
    LowestCoveringMeaning(ps, ifs, ingress, dst);
    var before, after := LowestCovering(ps, ifs, ingress, dst), LowestCovering(loaded, ifs, ingress, dst);
    if before.Some? && after.Some? { OneIdOnePolicy(loaded, before.value, after.value); }
    assert before == after;
  }

  /** Such an addition: traffic between two interfaces is dropped under id 2, then passed under id 1. In the
      order they were added it is dropped, in the order of ids passed. */
  lemma OverruledAddition()
    ensures var drop, pass := ZonePolicy(2, "lan", "wan", "drop", true), ZonePolicy(1, "lan", "wan", "pass", true);
            var ifs := [Interface("lan", None, None, Some(1)), Interface("wan", None, None, Some(2))];
            && Overruled([drop], pass, ifs, 1, ALL_ZEROS)
            && FirstPolicy([drop, pass], ifs, 1, ALL_ZEROS) == Some(ACTION_DROP)
            && FirstPolicy([pass, drop], ifs, 1, ALL_ZEROS) == Some(ACTION_PASS)
  {
    var drop, pass := ZonePolicy(2, "lan", "wan", "drop", true), ZonePolicy(1, "lan", "wan", "pass", true);
    var ifs := [Interface("lan", None, None, Some(1)), Interface("wan", None, None, Some(2))];
    assert Find(ifs, "lan") == Some(ifs[0]) && Find(ifs[1..], "wan") == Some(ifs[1]);
    assert PolicyMatches(drop, ifs, 1, ALL_ZEROS) && PolicyMatches(pass, ifs, 1, ALL_ZEROS);
    assert [drop][..0] == [] && [pass][..0] == [];
    assert FirstCovering([drop], ifs, 1, ALL_ZEROS) == Some(drop);
    assert FirstCovering([pass], ifs, 1, ALL_ZEROS) == Some(pass);
    assert [drop, pass][..1] == [drop] && [pass, drop][..1] == [pass];
  }
}
