/** Connection tracking: expiry and the TCP state machine. */
module Conntrack {
  import opened Types

  datatype TcpFlags = TcpFlags(fin: bool, syn: bool, rst: bool, ack: bool)

  const NO_FLAGS := TcpFlags(false, false, false, false)

  /** Idle for longer than the timeout of its state; a timeout of 0 never expires. */
  predicate Expired(timeouts: Timeouts, state: CtState, lastSeen: u64, now: u64) {
    var secs := timeouts[state.Slot()];
    secs != 0 && now > lastSeen && now - lastSeen > secs * NANOS_PER_SEC
  }

  predicate Live(timeouts: Timeouts, ct: CtTable, k: FiveTuple, now: u64) {
    k in ct && !Expired(timeouts, ct[k].state, ct[k].lastSeen, now)
  }

  function TcpStep(flags: TcpFlags, reply: bool, cur: CtState): CtState {
    if flags.rst then TimeWait
    else if flags.syn then
      if cur.Established? || cur.FinWait? || cur.TimeWait? then cur
      else if reply && flags.ack then Established
      else if reply then SynRecv
      else SynSent
    else if flags.ack then
      if cur.HalfOpen() then Established else cur
    else if flags.fin then
      if cur.FinWait? then TimeWait else FinWait
    else cur
  }

  function InitialState(proto: byte, flags: TcpFlags): CtState {
    if proto == IPPROTO_TCP then (if flags.syn then SynSent else Established)
    else if proto == IPPROTO_UDP then Udp
    else if proto == IPPROTO_ICMP || proto == IPPROTO_ICMPV6 then Icmp
    else Generic
  }

  /** The state after one more packet of the flow. */
  function NextState(proto: byte, flags: TcpFlags, reply: bool, cur: CtState): CtState {
    if proto == IPPROTO_TCP then TcpStep(flags, reply, cur) else cur
  }

  lemma ExpiredStays(timeouts: Timeouts, ct: CtTable, k: FiveTuple, now: u64, later: u64)
    requires now <= later && Live(timeouts, ct, k, later)
    ensures Live(timeouts, ct, k, now)
  {
  }

  /** The state after a list of packets, each with its flags and whether it is a reply. */
  function TcpRun(pkts: seq<(TcpFlags, bool)>, start: CtState): CtState {
    if pkts == [] then start
    else TcpStep(pkts[|pkts| - 1].0, pkts[|pkts| - 1].1, TcpRun(pkts[..|pkts| - 1], start))
  }

  /** Once the handshake is over no packets, in either direction, take a flow back to half-open, and
      a flow that has begun to close never counts as established again. */
  lemma {:induction false} HandshakeNeverReopens(pkts: seq<(TcpFlags, bool)>, start: CtState)
    requires start.Established? || start.FinWait? || start.TimeWait?
    ensures var s := TcpRun(pkts, start); s.Established? || s.FinWait? || s.TimeWait?
    ensures TcpRun(pkts, start).Established? ==> start.Established?
  {
    if pkts != [] {
      HandshakeNeverReopens(pkts[..|pkts| - 1], start);
    }
  }

  predicate BareFin(flags: TcpFlags) {
    flags.fin && !flags.rst && !flags.syn && !flags.ack
  }

  /** Bare FINs since the last RST, counted by parity. */
  predicate OddFins(pkts: seq<(TcpFlags, bool)>) {
    if pkts == [] || pkts[|pkts| - 1].0.rst then false
    else if BareFin(pkts[|pkts| - 1].0) then !OddFins(pkts[..|pkts| - 1])
    else OddFins(pkts[..|pkts| - 1])
  }

  predicate SeesRst(pkts: seq<(TcpFlags, bool)>) {
    exists i | 0 <= i < |pkts| :: pkts[i].0.rst
  }

  /** TIME_WAIT is not absorbing. A closed flow is in TIME_WAIT again exactly when the packets since the
      last RST hold an even number of bare FINs, and in FIN_WAIT otherwise. A flow in FIN_WAIT, until an
      RST comes, is the other way round. */
  lemma {:induction false} TimeWaitIffEvenFins(pkts: seq<(TcpFlags, bool)>, start: CtState)
    requires start.TimeWait? || start.FinWait?
    ensures var closed := start.TimeWait? || SeesRst(pkts);
            TcpRun(pkts, start) == if OddFins(pkts) == closed then FinWait else TimeWait
  {
    if pkts != [] {
      var front, last := pkts[..|pkts| - 1], pkts[|pkts| - 1];
      TimeWaitIffEvenFins(front, start);
      assert SeesRst(pkts) <==> SeesRst(front) || last.0.rst by {
        if i :| 0 <= i < |pkts| && pkts[i].0.rst {
          assert i < |front| ==> front[i].0.rst;
        }
        if i :| 0 <= i < |front| && front[i].0.rst {
          assert pkts[i].0.rst;
        }
      }
    }
  }

  // ---------------------------------------------------------------- what one packet does

  /** An ACK without SYN, or a reply with SYN and ACK. */
  predicate Completes(flags: TcpFlags, reply: bool) {
    !flags.rst && flags.ack && (flags.syn ==> reply)
  }

  /** The states one packet leads to, each with exactly the packets and states that lead there. */
  lemma StepIff(flags: TcpFlags, reply: bool, cur: CtState)
    ensures var to := TcpStep(flags, reply, cur);
            var bareFin, bareSyn := BareFin(flags), flags.syn && !flags.rst && !(reply && flags.ack);
            && (to.TimeWait? <==> flags.rst || (cur.FinWait? && bareFin) || (cur.TimeWait? && !bareFin))
            && (to.FinWait? <==> (bareFin && !cur.FinWait?) || (cur.FinWait? && !flags.rst && !bareFin))
            && (to.Established? <==>
                || (cur.Established? && !flags.rst && !bareFin)
                || (cur.HalfOpen() && Completes(flags, reply))
                || (flags.syn && !flags.rst && reply && flags.ack && !cur.FinWait? && !cur.TimeWait?))
            && (cur.HalfOpen() ==>
                && (to.SynSent? <==> if bareSyn then !reply else cur.SynSent? && to.HalfOpen())
                && (to.SynRecv? <==> if bareSyn then reply else cur.SynRecv? && to.HalfOpen())
                && (to.HalfOpen() <==> !flags.rst && !bareFin && !Completes(flags, reply)))
  {
  }

  // ---------------------------------------------------------------- handshakes

  /** No packet of the list resets or closes. */
  predicate Peaceful(pkts: seq<(TcpFlags, bool)>) {
    forall i | 0 <= i < |pkts| :: !pkts[i].0.rst && !BareFin(pkts[i].0)
  }

  predicate SomeCompletes(pkts: seq<(TcpFlags, bool)>) {
    exists i | 0 <= i < |pkts| :: Completes(pkts[i].0, pkts[i].1)
  }

  lemma SomeCompletesSnoc(pkts: seq<(TcpFlags, bool)>)
    requires pkts != []
    ensures var front, last := pkts[..|pkts| - 1], pkts[|pkts| - 1];
            SomeCompletes(pkts) <==> SomeCompletes(front) || Completes(last.0, last.1)
  {
    var front := pkts[..|pkts| - 1];
    if i :| 0 <= i < |pkts| && Completes(pkts[i].0, pkts[i].1) {
      assert i < |front| ==> Completes(front[i].0, front[i].1);
    }
    if i :| 0 <= i < |front| && Completes(front[i].0, front[i].1) {
      assert Completes(pkts[i].0, pkts[i].1);
    }
  }

  /** A half-open flow is established by any packets that neither reset nor close exactly when one of them
      is an ACK without SYN or a reply with SYN and ACK; otherwise it is half-open still. */
  lemma {:induction false} HandshakeCompletesIff(pkts: seq<(TcpFlags, bool)>, start: CtState)
    requires start.HalfOpen() && Peaceful(pkts)
    ensures var s := TcpRun(pkts, start);
            (s.Established? <==> SomeCompletes(pkts)) && (s.HalfOpen() <==> !SomeCompletes(pkts))
  {
    if pkts != [] {
      var front, last := pkts[..|pkts| - 1], pkts[|pkts| - 1];
      HandshakeCompletesIff(front, start);
      SomeCompletesSnoc(pkts);
      assert !last.0.rst && !BareFin(last.0);
    }
  }

  /** The three packets of a handshake: a SYN, its answer, and an ACK, which also does if the answer was missed. */
  lemma ThreeWayHandshake()
    ensures var syn, synAck, ack := TcpFlags(false, true, false, false), TcpFlags(false, true, false, true),
                                    TcpFlags(false, false, false, true);
            && InitialState(6, syn).SynSent?
            && TcpStep(syn, false, SynSent).SynSent?
            && TcpStep(synAck, true, SynSent).Established?
            && TcpStep(ack, false, Established).Established?
            && TcpStep(ack, false, SynSent).Established? && TcpStep(ack, false, SynRecv).Established?
  {
  }

  /** An established flow stays so exactly while no packet resets or closes it. A bare FIN begins to close it,
      and a FIN with ACK does not. */
  lemma {:induction false} EstablishedStaysIff(pkts: seq<(TcpFlags, bool)>)
    ensures TcpRun(pkts, Established).Established? <==> Peaceful(pkts)
    ensures Peaceful(pkts) ==> forall last: (TcpFlags, bool) ::
              TcpStep(last.0, last.1, TcpRun(pkts, Established))
              == if last.0.rst then TimeWait else if BareFin(last.0) then FinWait else Established
  {
    if pkts != [] {
      var front, last := pkts[..|pkts| - 1], pkts[|pkts| - 1];
      EstablishedStaysIff(front);
      HandshakeNeverReopens(front, Established);
      StepIff(last.0, last.1, TcpRun(front, Established));
      if Peaceful(front) && !last.0.rst && !BareFin(last.0) {
        assert forall i | 0 <= i < |front| :: pkts[i] == front[i];
      }
      if Peaceful(pkts) {
        assert forall i | 0 <= i < |front| :: front[i] == pkts[i];
      }
    }
  }

  // ---------------------------------------------------------------- first packets and timeouts

  /** The state of a first packet, by its protocol number and SYN flag. */
  lemma InitialStateIff(proto: byte, flags: TcpFlags)
    ensures var s := InitialState(proto, flags);
            && (s.SynSent? <==> proto == 6 && flags.syn)
            && (s.Established? <==> proto == 6 && !flags.syn)
            && (s.Udp? <==> proto == 17)
            && (s.Icmp? <==> proto == 1 || proto == 58)
            && (s.Generic? <==> proto != 6 && proto != 17 && proto != 1 && proto != 58)
  {
  }

  /** The daemon's configured timeouts, in seconds. */
  datatype TimeoutConfig = TimeoutConfig(
    established: u64, handshake: u64, closing: u64, timeWait: u64, udp: u64, icmp: u64, generic: u64)

  /** `Conntrack::timeouts`: the slots of the data plane's array. */
  function TimeoutsOf(c: TimeoutConfig): Timeouts {
    [Cap32(c.handshake), Cap32(c.handshake), Cap32(c.established), Cap32(c.closing), Cap32(c.closing),
     Cap32(c.timeWait), Cap32(c.udp), Cap32(c.icmp), Cap32(c.generic)]
  }

  function Cap32(x: u64): u32 {
    Min(x, MAX_U32)
  }

  /** The timeout an administrator means for a state. */
  function MeantFor(c: TimeoutConfig, state: CtState): u64 {
    if state.HalfOpen() then c.handshake
    else if state.Established? then c.established
    else if state.FinWait? || state.CloseWait? then c.closing
    else if state.TimeWait? then c.timeWait
    else if state.Udp? then c.udp
    else if state.Icmp? then c.icmp
    else c.generic
  }

  /** An entry expires exactly when it was idle for longer than the timeout configured for its state, and
      never for a timeout of 0. */
  lemma ExpiresAsConfigured(c: TimeoutConfig, state: CtState, lastSeen: u64, now: u64)
    ensures Expired(TimeoutsOf(c), state, lastSeen, now)
            <==> MeantFor(c, state) != 0 && now > lastSeen + Min(MeantFor(c, state), 0xFFFF_FFFF) * 1_000_000_000
  {
  }
}
