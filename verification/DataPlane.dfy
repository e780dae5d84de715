/** The data plane and the daemon's periodic passes, updating the shared maps in place. Every method
    is proved to do what `Pipeline` says of the snapshot of those maps. */
module DataPlane {
  import opened Types
  import opened Conntrack
  import opened TokenBucket
  import opened Pipeline
  import opened Reconcile
  import Dscp
  import Frames
  import Suricata
  import Zones

  method RefillBucket(b: Bucket, now: u64, rate: u32, cap: u32) returns (r: Bucket)
    ensures r == Refill(b, now, rate, cap)
  {
    r := b;
    if now > b.last {
      var elapsed := now - b.last;
      if elapsed > MAX_WINDOW {
        elapsed := MAX_WINDOW;
      }
      var add := elapsed * rate % TWO_64 / NANOS_PER_SEC;
      var room := (cap - b.tokens) % TWO_64;
      if room < add {
        add := room;
      }
      r := Bucket(now, (b.tokens + add) % TWO_32);
    }
  }

  function KeySet(keys: seq<FiveTuple>): set<FiveTuple> {
    set k | k in keys
  }

  lemma KeySetSnoc(keys: seq<FiveTuple>, i: nat)
    requires i < |keys|
    ensures KeySet(keys[..i + 1]) == KeySet(keys[..i]) + {keys[i]}
  {
    assert keys[..i + 1] == keys[..i] + [keys[i]];
  }

  lemma RemovedTwice(ct: CtTable, done: set<FiveTuple>, k: FiveTuple)
    ensures ct - done - {k} == ct - (done + {k})
  {
  }

  class Maps {
    var ct: CtTable
    var connCount: map<IpKey, u32>
    var synCount: map<IpKey, u32>
    var frag: FragTable
    var alg: map<FiveTuple, u64>
    var rate: map<IpKey, RateState>
    var syn: map<IpKey, Bucket>
    var qos: seq<Bucket>
    var stats: Stats

    constructor (rate: map<IpKey, RateState>, qos: seq<Bucket>)
      ensures Snapshot() == State(map[], map[], Aux(Counts(map[], map[]), map[], rate, map[], qos), Stats(0, 0, 0, 0))
    {
      ct, connCount, synCount, frag, alg, syn := map[], map[], map[], map[], map[], map[];
      this.rate, this.qos, stats := rate, qos, Stats(0, 0, 0, 0);
    }

    ghost function StageMaps(): Aux
      reads this
    {
      Aux(Counts(connCount, synCount), alg, rate, syn, qos)
    }

    ghost function Snapshot(): State
      reads this
    {
      State(ct, frag, StageMaps(), stats)
    }

    // -------------------------------------------------------------- statistics and fragments

    method BumpStats(passed: bool, blocked: bool)
      modifies this`stats
      ensures stats == Stats(Tick(old(stats).packets, true), Tick(old(stats).passed, passed),
                             Tick(old(stats).dropped, !passed), Tick(old(stats).blocked, blocked))
    {
      stats := stats.(packets := (stats.packets + 1) % TWO_64);
      if blocked {
        stats := stats.(blocked := (stats.blocked + 1) % TWO_64);
      }
      if passed {
        stats := stats.(passed := (stats.passed + 1) % TWO_64);
      } else {
        stats := stats.(dropped := (stats.dropped + 1) % TWO_64);
      }
    }

    method FragTrackUpdate(h: Header, now: u64)
      modifies this`frag
      ensures frag == if h.fragmented then old(frag)[h.FragmentKey() := now] else old(frag)
    {
      if h.fragmented {
        frag := frag[h.FragmentKey() := now];
      }
    }

    method HandleFragments(pol: Policy, h: Header, now: u64) returns (p: Option<Path>)
      ensures p == FragmentPath(pol, frag, h, now)
    {
      if !h.fragmented { return None; }
      if pol.fragPolicy == FRAG_POLICY_DROP { return Some(FragDropped); }
      if pol.fragPolicy == FRAG_POLICY_INSPECT {
        if h.firstFragment { return None; }
        if h.FragmentKey() !in frag { return Some(FragOrphan); }
        var last := frag[h.FragmentKey()];
        if now <= last || now - last <= pol.fragTimeout * NANOS_PER_SEC { return Some(FragKnown); }
        return Some(FragOrphan);
      }
      return Some(FragBypass);
    }

    // -------------------------------------------------------------- limiters and counters

    method RateLimitedCheck(k: IpKey, now: u64) returns (limited: bool)
      modifies this`rate
      ensures (rate, !limited) == RateCheck(old(rate), k, now)
    {
      if k !in rate { return false; }
      var st := rate[k];
      var b := RefillBucket(st.bucket, now, st.rate, RateCap(st));
      limited := b.tokens == 0;
      if !limited {
        b := b.(tokens := b.tokens - 1);
      }
      rate := rate[k := st.(bucket := b)];
    }

    /** The loop over QoS classes: the first that matches marks the packet and charges its bytes. */
    method ApplyQos(lim: Limits, f: Frame, h: Header, now: u64) returns (over: bool, mark: Option<byte>)
      modifies this`qos
      ensures (qos, !over) == QosCheck(lim, old(qos), f, h, now)
      ensures mark == QosMark(lim, f, h)
    {
      var count := Min(lim.qosTable.count, QOS_MAX);
      ghost var classes := Classes(lim);
      var i := 0;
      while i < count && i < |lim.qosTable.slots|
        invariant 0 <= i <= |classes|
        invariant ClassFrom(classes, i, f.ifindex, h) == QosClass(lim, f, h)
        invariant qos == old(qos)
      {
        var c := lim.qosTable.slots[i];
        if ClassMatches(c, f.ifindex, h) {
          mark, over := Some(c.dscp), false;
          if c.rateBps != 0 && i < |qos| {
            var b := RefillBucket(qos[i], now, c.rateBps, c.burstBytes);
            over := b.tokens < f.len;
            if !over {
              b := b.(tokens := b.tokens - f.len);
            }
            qos := qos[i := b];
          }
          return;
        }
        i := i + 1;
      }
      return false, None;
    }

    method SynFloodCheck(lim: Limits, k: IpKey, now: u64) returns (flooded: bool)
      modifies this`syn
      ensures syn == SynTokens(lim, old(syn), k, now).0
      ensures flooded == (!SynTokens(lim, old(syn), k, now).1 || !HalfOpenFits(lim, synCount, k))
    {
      if lim.synRate == 0 && lim.synMaxHalfOpen == 0 { return false; }
      if lim.synRate > 0 {
        if k in syn {
          var b := RefillBucket(syn[k], now, lim.synRate, SynCap(lim));
          if b.tokens == 0 {
            syn := syn[k := b];
            return true;
          }
          syn := syn[k := b.(tokens := b.tokens - 1)];
        } else {
          syn := syn[k := Bucket(now, SynCap(lim) - 1)];
        }
      }
      if lim.synMaxHalfOpen > 0 {
        var cur := if k in synCount then synCount[k] else 0;
        if cur >= lim.synMaxHalfOpen { return true; }
      }
      return false;
    }

    method ConnLimitCheck(lim: Limits, k: IpKey) returns (limited: bool)
      ensures limited == !ConnFits(lim, connCount, k)
    {
      if k !in lim.connLimits || lim.connLimits[k] == 0 { return false; }
      var cur := if k in connCount then connCount[k] else 0;
      return cur >= lim.connLimits[k];
    }

    method ConnCountInc(lim: Limits, k: IpKey) returns (counted: bool)
      modifies this`connCount
      ensures counted == (MaxConns(lim, k) != 0)
      ensures connCount == if counted then Increment(old(connCount), k) else old(connCount)
    {
      if k !in lim.connLimits || lim.connLimits[k] == 0 { return false; }
      if k in connCount {
        connCount := connCount[k := (connCount[k] + 1) % TWO_32];
      } else {
        connCount := connCount[k := 1];
      }
      return true;
    }

    method SynCountInc(lim: Limits, k: IpKey) returns (counted: bool)
      modifies this`synCount
      ensures counted == (lim.synMaxHalfOpen != 0)
      ensures synCount == if counted then Increment(old(synCount), k) else old(synCount)
    {
      if lim.synMaxHalfOpen == 0 { return false; }
      if k in synCount {
        synCount := synCount[k := (synCount[k] + 1) % TWO_32];
      } else {
        synCount := synCount[k := 1];
      }
      return true;
    }

    method ConnCountDec(k: IpKey)
      modifies this`connCount
      ensures connCount == Decrement(old(connCount), k)
    {
      if k in connCount && connCount[k] > 0 {
        connCount := connCount[k := connCount[k] - 1];
      }
    }

    method SynCountDec(k: IpKey)
      modifies this`synCount
      ensures synCount == Decrement(old(synCount), k)
    {
      if k in synCount && synCount[k] > 0 {
        synCount := synCount[k := synCount[k] - 1];
      }
    }

    /** Gives back what the entry `v` of source `src` stops counting for when it moves to `to`;
        `w` is the entry being written. */
    method CountersTick(w: CtValue, v: CtValue, to: CtState, src: IpKey) returns (nv: CtValue)
      requires w.countedSyn == v.countedSyn && w.countedConn == v.countedConn
      modifies this`connCount, this`synCount
      ensures Counts(connCount, synCount) == GiveBack(Counts(old(connCount), old(synCount)), src, v, to)
      ensures nv == Unmarked(w, v, to)
    {
      nv := w;
      if v.isNat { return; }
      if to != v.state {
        if v.state.HalfOpen() && !to.HalfOpen() && v.countedSyn {
          SynCountDec(src);
          nv := nv.(countedSyn := false);
        }
        if to.TimeWait? && v.countedConn {
          ConnCountDec(src);
          nv := nv.(countedConn := false);
        }
      }
    }

    method AlgExpectHit(k: FiveTuple, now: u64) returns (hit: bool)
      modifies this`alg
      ensures hit == ExpectLive(old(alg), k, now)
      ensures alg == DropStale(old(alg), k, now)
    {
      if k !in alg { return false; }
      if alg[k] != 0 && now > alg[k] {
        alg := alg - {k};
        return false;
      }
      return true;
    }

    // -------------------------------------------------------------- the stages of a packet

    /** A packet of the live entry `k`, in its direction or against it. */
    method RefreshEntry(k: FiveTuple, f: Frame, h: Header, reply: bool, ghost mark: Option<byte>, now: u64)
      requires k in ct
      modifies this`ct, this`connCount, this`synCount, this`frag
      ensures var o := Hit(old(StageMaps()), k, old(ct)[k], h, reply, f.len, mark, now);
              StageMaps() == o.aux && ct == Written(old(ct), o.write)
      ensures frag == if h.fragmented then old(frag)[h.FragmentKey() := now] else old(frag)
    {
      var v := ct[k];
      var to := NextState(h.proto, h.tcp, reply, v.state);
      var nv := RefreshValue(v, to, k.Source(), h.fragmented, reply, f.len, now);
      assert StageMaps() == old(StageMaps()).(counts := GiveBack(old(StageMaps()).counts, k.Source(), v, to));
      FragTrackUpdate(h, now);
      ct := ct[k := nv];
    }

    /** The refreshed entry, after giving back what it no longer counts for. */
    method RefreshValue(v: CtValue, to: CtState, src: IpKey, fragmented: bool, reply: bool, len: u32, now: u64)
      returns (nv: CtValue)
      modifies this`connCount, this`synCount
      ensures nv == Refreshed(v, to, reply, fragmented, len, now)
      ensures Counts(connCount, synCount) == GiveBack(Counts(old(connCount), old(synCount)), src, v, to)
    {
      nv := CountersTick(Touched(v, to, reply, len, now), v, to, src);
      if fragmented {
        nv := nv.(hasFragments := true);
      }
    }

    /** Port forwarding: expects the reply and passes. */
    method DnatStage(pol: Policy, h: Header, now: u64) returns (hit: bool)
      modifies this`ct, this`frag
      ensures hit == (h.isV4 && DnatKeyOf(h) in pol.dnat)
      ensures ct == if hit then old(ct)[DnatReplyKey(h, pol.dnat[DnatKeyOf(h)]) := NatReply(now)] else old(ct)
      ensures frag == if hit && h.fragmented then old(frag)[h.FragmentKey() := now] else old(frag)
    {
      hit := h.isV4 && DnatKeyOf(h) in pol.dnat;
      if hit {
        ct := ct[DnatReplyKey(h, pol.dnat[DnatKeyOf(h)]) := NatReply(now)];
        FragTrackUpdate(h, now);
      }
    }

    /** FTP expectations: a hit uses them up and opens the data connection's entry. */
    method AlgStage(pol: Policy, f: Frame, h: Header, now: u64) returns (hit: bool)
      modifies this`alg, this`ct, this`frag
      ensures hit == (AlgApplies(pol, h) && AlgCheck(old(alg), h, now).1)
      ensures alg == if AlgApplies(pol, h) then AlgCheck(old(alg), h, now).0 else old(alg)
      ensures ct == if hit then old(ct)[h.FlowKey() := NewCtValue(InitialState(h.proto, h.tcp), now, f.len)]
                    else old(ct)
      ensures frag == if hit && h.fragmented then old(frag)[h.FragmentKey() := now] else old(frag)
    {
      if !AlgApplies(pol, h) { return false; }
      var flow := h.FlowKey();
      var wild := FiveTupleV4(h.srcIp, h.dstIp, h.proto, 0, h.dstPort);
      hit := AlgExpectHit(flow, now);
      if !hit {
        hit := AlgExpectHit(wild, now);
      }
      if hit {
        alg := alg - {flow};
        alg := alg - {wild};
        assert alg == old(alg) - {flow, wild};
        ct := ct[flow := NewCtValue(InitialState(h.proto, h.tcp), now, f.len)];
        FragTrackUpdate(h, now);
      }
    }

    /** A new flow passed every check: its entry goes in first, then the counters and the marks. */
    method InsertNew(lim: Limits, f: Frame, h: Header, now: u64)
      modifies this`ct, this`connCount, this`synCount, this`frag
      ensures ct == old(ct)[h.FlowKey() := NewEntry(lim, h, f.len, now)]
      ensures Counts(connCount, synCount) == Counted(lim, Counts(old(connCount), old(synCount)), h)
      ensures frag == if h.fragmented then old(frag)[h.FragmentKey() := now] else old(frag)
    {
      var flow := h.FlowKey();
      var nv := NewCtValue(InitialState(h.proto, h.tcp), now, f.len);
      if h.fragmented {
        nv := nv.(hasFragments := true);
      }
      ct := ct[flow := nv];
      CountSyn(lim, h);
      CountConn(lim, h);
      FragTrackUpdate(h, now);
    }

    /** A new half-open connection is counted, and its entry marked if it was. */
    method CountSyn(lim: Limits, h: Header)
      requires h.FlowKey() in ct && ct[h.FlowKey()].state == InitialState(h.proto, h.tcp)
      modifies this`ct, this`synCount
      ensures synCount == if CountsSyn(lim, h) then Increment(old(synCount), h.SrcKey()) else old(synCount)
      ensures ct == if CountsSyn(lim, h) then old(ct)[h.FlowKey() := old(ct)[h.FlowKey()].(countedSyn := true)]
                    else old(ct)
    {
      if h.proto == IPPROTO_TCP && ct[h.FlowKey()].state.SynSent? {
        var counted := SynCountInc(lim, h.SrcKey());
        if counted {
          ct := ct[h.FlowKey() := ct[h.FlowKey()].(countedSyn := true)];
        }
      }
    }

    method CountConn(lim: Limits, h: Header)
      requires h.FlowKey() in ct
      modifies this`ct, this`connCount
      ensures connCount == if CountsConn(lim, h) then Increment(old(connCount), h.SrcKey()) else old(connCount)
      ensures ct == if CountsConn(lim, h) then old(ct)[h.FlowKey() := old(ct)[h.FlowKey()].(countedConn := true)]
                    else old(ct)
    {
      var counted := ConnCountInc(lim, h.SrcKey());
      if counted {
        ct := ct[h.FlowKey() := ct[h.FlowKey()].(countedConn := true)];
      }
    }

    /** Prefilter with its two views, zone policies, default action. */
    method GateStage(pol: Policy, f: Frame, h: Header) returns (p: Option<Path>)
      ensures p == Gate(pol, f, h)
    {
      if h.isV4 && pol.prefilter {
        var pass := Suricata.RulesHit(pol.rules, h.Ipv4Flow());
        if !pass {
          pass := Suricata.RulesHit(pol.rules, h.Ipv4Flow().Reverse());
        }
        if !pass { return Some(PrefilterMiss); }
      }
      if h.isV4 {
        var action := Zones.Lookup(pol.zones, f.ifindex, Zones.WordOf(h.dstIp));
        if action == Some(ACTION_DROP) { return Some(ZoneDropped); }
        if action == Some(ACTION_PASS) { return Some(ZonePassed); }
      }
      if pol.defaultAction == ACTION_DROP { return Some(DefaultDropped); }
      return None;
    }

    /** SYN flood protection, connection limit, insertion. */
    method AdmitNewStage(lim: Limits, f: Frame, h: Header, ghost mark: Option<byte>, now: u64) returns (p: Path)
      modifies this`ct, this`connCount, this`synCount, this`frag, this`syn
      ensures var o := AdmitNew(lim, old(StageMaps()), f, h, mark, now);
              p == o.verdict.path && StageMaps() == o.aux && ct == Written(old(ct), o.write)
      ensures frag == if p.Accepted? && h.fragmented then old(frag)[h.FragmentKey() := now] else old(frag)
      ensures p.ReachesSynCheck()
    {
      ghost var before := StageMaps();
      var flooded := SynStage(lim, h, now);
      assert StageMaps() == before.(syn := SynGate(lim, before.syn, h, now).0);
      var limited := ConnLimitCheck(lim, h.SrcKey());
      if flooded {
        p := SynFlooded;
      } else if limited {
        p := ConnLimited;
      } else {
        InsertNew(lim, f, h, now);
        p := Accepted;
        assert StageMaps() == before.(syn := SynGate(lim, before.syn, h, now).0,
                                        counts := Counted(lim, before.counts, h));
      }
    }

    /** SYN flood protection, for a TCP SYN only. */
    method SynStage(lim: Limits, h: Header, now: u64) returns (flooded: bool)
      modifies this`syn
      ensures syn == SynGate(lim, old(syn), h, now).0
      ensures flooded == (!SynGate(lim, old(syn), h, now).1
                          || (IsTcpSyn(h) && !HalfOpenFits(lim, synCount, h.SrcKey())))
    {
      flooded := false;
      if h.proto == IPPROTO_TCP && InitialState(h.proto, h.tcp).SynSent? {
        flooded := SynFloodCheck(lim, h.SrcKey(), now);
      }
    }

    method AdmitStage(lim: Limits, pol: Policy, f: Frame, h: Header, ghost mark: Option<byte>, now: u64)
      returns (p: Path)
      modifies this`ct, this`connCount, this`synCount, this`frag, this`syn
      ensures var o := Admit(lim, pol, old(StageMaps()), f, h, mark, now);
              p == o.verdict.path && StageMaps() == o.aux && ct == Written(old(ct), o.write)
      ensures frag == if p.RecordsFragment() && h.fragmented then old(frag)[h.FragmentKey() := now] else old(frag)
    {
      var gated := GateStage(pol, f, h);
      if gated.Some? {
        if gated.value.ZonePassed? {
          FragTrackUpdate(h, now);
        }
        return gated.value;
      }
      p := AdmitNewStage(lim, f, h, mark, now);
    }

    /** Port forwarding, FTP expectations, admission. */
    method NewFlowStage(lim: Limits, pol: Policy, f: Frame, h: Header, ghost mark: Option<byte>, now: u64)
      returns (p: Path)
      modifies this`ct, this`connCount, this`synCount, this`frag, this`syn, this`alg
      ensures var o := NewFlow(lim, pol, old(StageMaps()), f, h, mark, now);
              p == o.verdict.path && StageMaps() == o.aux && ct == Written(old(ct), o.write)
      ensures frag == if p.RecordsFragment() && h.fragmented then old(frag)[h.FragmentKey() := now] else old(frag)
    {
      var forwarded := DnatStage(pol, h, now);
      assert StageMaps() == old(StageMaps());
      if forwarded {
        p := DnatHit;
      } else {
        var expected := AlgStage(pol, f, h, now);
        assert StageMaps()
            == old(StageMaps()).(alg := if AlgApplies(pol, h) then AlgCheck(old(alg), h, now).0 else old(alg));
        if expected {
          p := AlgHit;
        } else {
          p := AdmitStage(lim, pol, f, h, mark, now);
        }
      }
    }

    /** Connection tracking: forward, then reverse, then a new flow. */
    method TrackStage(lim: Limits, pol: Policy, f: Frame, h: Header, ghost mark: Option<byte>, now: u64)
      returns (p: Path)
      modifies this`ct, this`connCount, this`synCount, this`frag, this`syn, this`alg
      ensures var found := LookUp(lim.timeouts, old(ct), h.FlowKey(), now);
              var o := Track(lim, pol, old(StageMaps()), found, f, h, mark, now);
              p == o.verdict.path && StageMaps() == o.aux && ct == Written(old(ct), o.write)
      ensures frag == if p.RecordsFragment() && h.fragmented then old(frag)[h.FragmentKey() := now] else old(frag)
    {
      var flow := h.FlowKey();
      var rev := flow.Reverse();
      ghost var found := LookUp(lim.timeouts, ct, flow, now);
      if flow in ct && !Expired(lim.timeouts, ct[flow].state, ct[flow].lastSeen, now) {
        assert found == Forward(ct[flow]);
        RefreshEntry(flow, f, h, false, mark, now);
        p := CtForward;
      } else if rev in ct && !Expired(lim.timeouts, ct[rev].state, ct[rev].lastSeen, now) {
        assert found == Backward(ct[rev]);
        RefreshEntry(rev, f, h, true, mark, now);
        p := CtReverse;
      } else {
        assert found == Unknown;
        p := NewFlowStage(lim, pol, f, h, mark, now);
      }
    }

    /** Blocked sources, fragments, ND filter, allow list and local destinations. */
    method EarlyStage(pol: Policy, f: Frame, now: u64) returns (p: Option<Path>)
      modifies this`frag
      ensures p == EarlyPath(pol, old(frag), f, now)
      ensures frag == if p.Some? then TrackFragment(old(frag), f, p.value, now) else old(frag)
    {
      if (f.ifindex, f.vlan) !in pol.vifs { return Some(NoVif); }
      if f.l3.NonIp? { return Some(NotIp); }
      if f.l3.BadIp? { return Some(Malformed); }
      var h := f.l3.h;
      if h.SrcKey() in pol.blocked { return Some(Blocked); }
      p := HandleFragments(pol, h, now);
      if p.Some? { return; }
      if !h.isV4 && h.proto == IPPROTO_ICMPV6 && pol.vifs[(f.ifindex, f.vlan)].role == ROLE_LAN && pol.raFilter {
        if h.icmp6Type.None? { return Some(Malformed); }
        if h.icmp6Type.value == ICMPV6_RA || h.icmp6Type.value == ICMPV6_REDIRECT { return Some(NdFiltered); }
      }
      if h.FlowKey() in pol.allowed {
        FragTrackUpdate(h, now);
        return Some(Allowed);
      }
      if h.FlowKey().Reverse() in pol.allowed {
        FragTrackUpdate(h, now);
        return Some(Allowed);
      }
      if h.DstKey() in pol.localIps {
        FragTrackUpdate(h, now);
        return Some(LocalDestination);
      }
      return None;
    }

    /** The two rate stages, then connection tracking. */
    method CheckedStage(lim: Limits, pol: Policy, f: Frame, h: Header, now: u64) returns (v: Verdict)
      modifies this`ct, this`connCount, this`synCount, this`frag, this`syn, this`alg, this`rate, this`qos
      ensures var o := Limit(lim, pol, old(StageMaps()), LookUp(lim.timeouts, old(ct), h.FlowKey(), now), f, h, now);
              v == o.verdict && StageMaps() == o.aux && ct == Written(old(ct), o.write)
      ensures frag == if v.path.RecordsFragment() && h.fragmented then old(frag)[h.FragmentKey() := now] else old(frag)
    {
      var limited := RateLimitedCheck(h.SrcKey(), now);
      ghost var s1 := old(StageMaps()).(rate := RateCheck(old(rate), h.SrcKey(), now).0);
      assert StageMaps() == s1;
      if limited { return Verdict(RateLimited, None); }
      var over, mark := ApplyQos(lim, f, h, now);
      ghost var s2 := s1.(qos := QosCheck(lim, s1.qos, f, h, now).0);
      assert StageMaps() == s2;
      if over { return Verdict(QosLimited, mark); }
      var p := TrackStage(lim, pol, f, h, mark, now);
      v := Verdict(p, mark);
      TrackMark(lim, pol, s2, LookUp(lim.timeouts, old(ct), h.FlowKey(), now), f, h, mark, now);
    }

    /** All stages, before the statistics. */
    method StagesOf(lim: Limits, pol: Policy, f: Frame, now: u64) returns (v: Verdict)
      modifies this`ct, this`connCount, this`synCount, this`frag, this`syn, this`alg, this`rate, this`qos
      ensures var early, found := EarlyPath(pol, old(frag), f, now), LookUpFrame(lim.timeouts, old(ct), f, now);
              var o := Decide(lim, pol, old(StageMaps()), early, found, f, now);
              && v == o.verdict && StageMaps() == o.aux && ct == Written(old(ct), o.write)
              && frag == TrackFragment(old(frag), f, v.path, now)
    {
      var early := EarlyStage(pol, f, now);
      assert StageMaps() == old(StageMaps());
      if early.Some? {
        v := Verdict(early.value, None);
      } else {
        v := CheckedStage(lim, pol, f, f.l3.h, now);
      }
    }

    /** `try_k_firewall` after parsing. */
    method DecideFrame(lim: Limits, pol: Policy, f: Frame, now: u64) returns (v: Verdict)
      modifies this
      ensures (Snapshot(), v) == Packet(lim, pol, old(Snapshot()), f, now)
    {
      v := StagesOf(lim, pol, f, now);
      if !v.path.Malformed? {
        BumpStats(v.path.Passes(), v.path.Blocked?);
      }
    }

    /** `k_firewall` and `try_k_firewall`: a frame arrives, is dropped or passed, and may be marked in place. */
    method TryKFirewall(lim: Limits, pol: Policy, ifindex: u32, frame: array<byte>, now: u64) returns (pass: bool)
      requires frame.Length <= MAX_U32
      modifies this, frame
      ensures var f := Frames.ReadFrame(ifindex, old(frame[..]));
              if f.None? then !pass && Snapshot() == old(Snapshot()) && frame[..] == old(frame[..])
              else
                var (s', v) := Packet(lim, pol, old(Snapshot()), f.value, now);
                && Snapshot() == s' && pass == v.path.Passes()
                && frame[..] == Frames.MarkedFrame(old(frame[..]), v.mark)
    {
      var f := Frames.ParseFrame(ifindex, frame[..]);
      if f.None? { return false; }
      var v := DecideFrame(lim, pol, f.value, now);
      MarkInPlace(frame, v.mark);
      pass := v.path.Passes();
    }

    method MarkInPlace(frame: array<byte>, mark: Option<byte>)
      modifies frame
      ensures frame[..] == Frames.MarkedFrame(old(frame[..]), mark)
    {
      var link := Frames.ReadLink(frame[..]);
      if mark.Some? && link.Some? {
        if link.value.etherType == Frames.ETHER_IPV4 {
          Dscp.MarkIpv4(frame, link.value.l3, mark.value);
        } else if link.value.etherType == Frames.ETHER_IPV6 {
          Dscp.MarkIpv6(frame, link.value.l3, mark.value);
        }
      }
    }

    /** `kfw_tc_egress`: a frame that cannot be read changes nothing. */
    method TcEgress(pkt: seq<byte>, now: u64)
      modifies this`ct
      ensures var h := Frames.ReadEgress(pkt);
              Snapshot() == if h.Some? then Egress(old(Snapshot()), h.value, now) else old(Snapshot())
    {
      var read := Frames.ReadEgress(pkt);
      if read.None? { return; }
      var h := read.value;
      var replyKey := if h.isV4 then FiveTupleV4(h.dstIp, h.srcIp, h.proto, h.dstPort, h.srcPort)
                      else FiveTupleV6(h.dstIp6, h.srcIp6, h.proto, h.dstPort, h.srcPort);
      ct := ct[replyKey := NatReply(now)];
    }

    // -------------------------------------------------------------- the daemon's periodic passes

    /** `prune_conntrack`: a walk over a snapshot of the entries, in any order. */
    method PruneConntrack(timeouts: Timeouts, now: u64) returns (removed: nat)
      modifies this`ct
      ensures ct == PruneTable(timeouts, old(ct), now)
      ensures removed == |old(ct)| - |ct|
    {
      var todo := ct.Keys;
      removed := 0;
      while todo != {}
        invariant todo <= old(ct).Keys
        invariant forall k :: k in ct <==> k in old(ct) && (k in todo || Live(timeouts, old(ct), k, now))
        invariant forall k | k in ct :: ct[k] == old(ct)[k]
        invariant removed == |old(ct)| - |ct|
        decreases |todo|
      {
        var k :| k in todo;
        todo := todo - {k};
        if Expired(timeouts, ct[k].state, ct[k].lastSeen, now) {
          var found := RemoveEntry(k);
          removed := removed + 1;
        }
      }
    }

    /** `delete_session_by_id` and the deletion by filter, which collects its keys first; the count is of
        the entries that were there. */
    method DeleteSessions(keys: seq<FiveTuple>) returns (removed: nat)
      modifies this`ct
      ensures ct == old(ct) - KeySet(keys)
      ensures removed == |old(ct)| - |ct|
    {
      removed := 0;
      ghost var done: set<FiveTuple> := {};
      assert ct == old(ct) - done;
      for i := 0 to |keys|
        invariant done == KeySet(keys[..i])
        invariant ct == old(ct) - done
        invariant removed == |old(ct)| - |ct|
      {
        RemovedTwice(old(ct), done, keys[i]);
        KeySetSnoc(keys, i);
        done := done + {keys[i]};
        var found := RemoveEntry(keys[i]);
        removed := removed + (if found then 1 else 0);
      }
      assert keys[..|keys|] == keys;
    }

    method RemoveEntry(k: FiveTuple) returns (found: bool)
      modifies this`ct
      ensures ct == old(ct) - {k} && found == (k in old(ct))
      ensures |ct| == |old(ct)| - (if found then 1 else 0)
    {
      found := k in ct;
      assert (ct - {k}).Keys == ct.Keys - {k};
      ct := ct - {k};
    }

    /** `prune_frag_track`. */
    method PruneFragTrack(timeoutSecs: u64, now: u64)
      modifies this`frag
      ensures frag == PruneFragments(old(frag), timeoutSecs, now)
    {
      var timeoutNs := Min(timeoutSecs * NANOS_PER_SEC, MAX_U64);
      var todo := frag.Keys;
      while todo != {}
        invariant todo <= old(frag).Keys
        invariant forall k :: k in frag <==>
                    k in old(frag) && (k in todo || !(now > old(frag)[k] && now - old(frag)[k] > timeoutNs))
        invariant forall k | k in frag :: frag[k] == old(frag)[k]
        decreases |todo|
      {
        var k :| k in todo;
        todo := todo - {k};
        if now > frag[k] && now - frag[k] > timeoutNs {
          frag := frag - {k};
        }
      }
    }

    /** `reconcile_conn_counts`: tallies over a snapshot, in any order, then both tables replaced. */
    method ReconcileConnCounts()
      modifies this`connCount, this`synCount
      ensures Snapshot() == ReconcileCounts(old(Snapshot()))
    {
      connCount, synCount := TallyEntries(ct);
    }
  }

  /** The tallying walk, over the entries in any order. */
  method TallyEntries(ct: CtTable) returns (conns: map<IpKey, u32>, syns: map<IpKey, u32>)
    ensures conns == Tally(OwnKeys(ct)) && syns == Tally(HalfOpenKeys(ct))
  {
    conns, syns := map[], map[];
    var todo := ct.Keys;
    ghost var own: set<FiveTuple>, half: set<FiveTuple> := {}, {};
    while todo != {}
      invariant todo <= ct.Keys
      invariant own == OwnKeys(ct) - todo && half == HalfOpenKeys(ct) - todo
      invariant conns == Tally(own) && syns == Tally(half)
      decreases |todo|
    {
      var k :| k in todo;
      NoLongerToDo(OwnKeys(ct), todo, k);
      NoLongerToDo(HalfOpenKeys(ct), todo, k);
      if !ct[k].isNat {
        conns := TallyOne(conns, own, k);
        own := own + {k};
        if ct[k].state.HalfOpen() {
          syns := TallyOne(syns, half, k);
          half := half + {k};
        }
      }
      todo := todo - {k};
    }
    NothingToDo(OwnKeys(ct), todo);
    NothingToDo(HalfOpenKeys(ct), todo);
  }

  lemma NoLongerToDo(all: set<FiveTuple>, todo: set<FiveTuple>, k: FiveTuple)
    requires k in todo
    ensures all - (todo - {k}) == (all - todo) + (if k in all then {k} else {})
  {
  }

  lemma NothingToDo(all: set<FiveTuple>, todo: set<FiveTuple>)
    requires todo == {}
    ensures all - todo == all
  {
  }

  method TallyOne(t: map<IpKey, u32>, ghost keys: set<FiveTuple>, k: FiveTuple) returns (t': map<IpKey, u32>)
    requires t == Tally(keys) && k !in keys
    ensures t' == Tally(keys + {k})
  {
    var src := TallyKey(k);
    TallyAdd(keys, k);
    if src !in t {
      t' := t[src := 0];
    } else {
      t' := t;
    }
    t' := t'[src := SaturatingAdd32(t'[src], 1)];
  }

  /** The stages after QoS keep its mark. */
  lemma TrackMark(lim: Limits, pol: Policy, s: Aux, found: Lookup, f: Frame, h: Header, mark: Option<byte>, now: u64)
    ensures Track(lim, pol, s, found, f, h, mark, now).verdict.mark == mark
  {
  }
}
