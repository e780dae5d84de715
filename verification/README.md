# Verified model of the k-firewall data plane and its daemon

k-firewall is an XDP/eBPF firewall with a userspace daemon. The data plane decides every packet from maps it shares
with the daemon: a connection table, fragment table, per-source counters, token buckets, prefilter tries and zone
entries. The daemon compiles policy into those maps, prunes and reconciles them, and also runs a DHCPv6 server.

The project has these parts.

* **The packet pipeline.** `Frames` reads the bytes of a frame; `SentFrames` proves that what an IPv4 or IPv6 sender
  writes is what is read. `PacketMeaning` says, from header fields and tables alone, exactly which packets take each
  path, `FlowEntries` what the connection table then records, `Conntrack` when handshakes complete. `Pipeline` says,
  as functions on a snapshot of the maps, what one packet, one outbound packet and one daemon pass do.
  `DataPlane.Maps` does the same in place, method by method in the shape of the source, from the bytes that arrive to
  the bytes let out, and each method is proved to do what `Pipeline` says. `Runs` defines runs: any interleaving of packets (the policy may change at every packet),
  outbound packets, prunes, reconciles, session deletions and FTP expectations. Over those runs:
  * `PruneInvisible`: pruning cannot be observed, so the prune schedule does not matter;
  * `Quotas`: connection and half-open quotas hold per source, and no counter is ever decremented at zero;
  * `Tables`: no flow is tracked under both of its keys; a passed later fragment has its first fragment; every
    fast-path pass has an origin and no gap longer than the timeout;
  * `Availability`: exactly when an entry is live and a packet takes the fast path; dropped packets leave no trace;
    statistics are counts of verdicts;
  * `RateBounds` with `TokenBucket`: throughput over every window, and when the bound and the cap hold;
  * `Reconcile`: reconciled counters are exact, and reconcile is the one pass that does see pruning.
* **The Suricata header prefilter** (`Suricata`, `SuricataMeaning`, `RuleTraffic`): compiling rule headers to prefix
  keys of four longest-prefix-match tables preserves their meaning, from the protocol named in a rule to the bytes of
  the frames it lets through.
* **Zone policies** (`Zones`, `ZoneOrder`): compilation, the bounded walk over the array, and the order of evaluation.
* **Hot re-sync** (`HotSync`, `PolicySync`): zones, QoS classes and prefilter tables are rewritten write by write under
  the data plane's eyes.
* **DHCPv6** (`DhcpCodec`, `Dhcp`, `DhcpLeases`, `DhcpMessages`): option codec, bounded probe, lease safety, and what
  each datagram does to the leases and is answered with.
* **Arithmetic and formats**: the incremental IPv4 checksum (`Dscp`), the IPv6 extension-header walk (`ExtHeaders`),
  the two CIDR matchers (`Cidr`), session ids (`SessionId`), bits and bytes (`Bytes`), set sizes (`Sets`).

Machine integers are subset types (`byte`, `u16`, `u32`, `u64`) of the unbounded integers. Where the source wraps,
saturates or truncates, the model writes it out. Time is the `now` of each step; every packet has one `now`.

## Where the code and its comments disagree

The model follows the code. Each failure has its exact condition.

* The refill's comment says its product fits 64 bits (`k-firewall-ebpf/src/main.rs:310-311`). It does up to 18,446,744
  tokens a second and wraps above (`TokenBucket.ProductFitsIff`). The window bound holds all the same.
* A QoS sync reuses the buckets and says they need no clearing (`k-firewalld/src/ebpf_loader.rs:875-876`). A bucket
  left with more than the new burst escapes the cap and the bound (`TokenBucket.BoundHoldsIff`,
  `TokenBucket.CapHoldsIff`). So do SYN buckets when the burst is lowered (`k-firewall-ebpf/src/main.rs:437`,
  `TokenBucket.UnitBoundHoldsIff`).
* A refill moves the clock even when it earns less than a token (`k-firewall-ebpf/src/main.rs:317-320`). A source that
  asks too often starves (`TokenBucket.BusySourceStarves`, `TokenBucket.EarnsIff`), so there is no lower bound on
  throughput.
* The extension-header comment says up to eight headers (`k-firewall-ebpf/src/main.rs:1033`); the loop takes five.
* `TIME_WAIT` is not absorbing: a bare FIN moves it to `FIN_WAIT` (`k-firewall-ebpf/src/main.rs:608-614`).
  `Conntrack.TimeWaitIffEvenFins` says exactly when a closed flow is in it, `Conntrack.HandshakeNeverReopens` what
  does hold.
* Zone policies are called ordered by id (`k-firewalld/src/api.rs:2005-2008`). They are compiled in list order, and an
  addition goes to the end of the list whatever its id (`k-firewalld/src/api.rs:1662-1685`).
  `ZoneOrder.AddKeepsOrderIff` says when the two orders stay the same, `ZoneOrder.AddDecidesByIdIff` on which packets
  they agree after any additions, and `ZoneOrder.OverruledAddition` gives two policies on which they differ.
* A comment calls the DHCPv6 pool exhausted when `alloc_addr_locked` gives the unspecified address
  (`k-firewalld/src/dhcp.rs:195`). In a pool with prefix `::`, that address is also an ordinary one
  (`DhcpLeases.NeverFailsEarlyIff`).
* `addr_at` says it adds the offset to the low 64 bits (`k-firewalld/src/dhcp.rs:166`). Bits 16 to 31 and 48 to 63 of
  the sum are dropped and bits 32 to 47 land sixteen bits too low (`DhcpLeases.AddressesMeetIff`,
  `DhcpLeases.SumIsKeptIff`, `DhcpLeases.AddressIsSumIff`).
* `session_key_from_full_id` is called the inverse of `session_id_full`; it also accepts strings that are no id
  (`SessionId.IdComesBackIff`).
* `CidrMatcher` and `cidr_match_ip` document the same reading of an address; `/0` is read as a host by the one and as
  everything by the other (`Cidr.MatchersAgreeIff`).
* `session_key_from_full_id` cuts its text at byte offsets and panics on some texts of the right length
  (`SessionId.DecodePanicsIff`).
* Protocols without ports are said to be kept expressible so that their flows are not dropped
  (`k-firewalld/src/suricata_rules.rs:400-402`). SCTP is not among them, yet its ports are never read: once the
  prefilter is on every new SCTP flow is dropped (`SuricataMeaning.PrefilterMissesPortless`,
  `PolicySync.UnreadPortsAreDropped`).
* A first fragment is said to be one at offset 0 (`k-firewall-ebpf/src/main.rs:1072`). The flag stays set over several
  fragment headers (`ExtHeaders.FalseFirstIff`).
* Outbound packets are said to give the five-tuple of the reply (`k-firewall-ebpf/src/main.rs:1682-1684`). Extension
  headers and later fragments are not looked for there (`Frames.EgressAgreesIff`).
* An existing lease is returned as it is while the reply promises the full lifetime again
  (`DhcpLeases.LifetimeKeptIff`). A client without an address is said to receive NoAddrsAvail
  (`k-firewalld/src/dhcp.rs:195`); it receives `::` in the association.

## Model

The results come first, then the methods that model the source's steps in place.

| member | source | states |
|---|---|---|
| `PacketMeaning.BlockedIff` | k-firewall-ebpf/src/main.rs:1125-1159 | Of the IP packets on a known interface, the block list drops exactly those whose source address it holds, with nothing changed but the statistics |
| `PacketMeaning.FragmentsIff` | k-firewall-ebpf/src/main.rs:857-900 | Which fragments are dropped, passed unseen, or passed or dropped by whether their flow was seen within the timeout |
| `PacketMeaning.ShortcutsIff` | k-firewall-ebpf/src/main.rs:1166-1230 | Exactly the packets that the neighbour discovery filter drops, the allow list passes in either direction, and the local addresses take in, in that order |
| `PacketMeaning.LimitersIff` | k-firewall-ebpf/src/main.rs:1233-1257 | A packet is stopped by the source limiter if and only if its source is over its rate, and by QoS if and only if it is not and its first matching class has fewer bytes left than the packet has; when it is marked |
| `PacketMeaning.ClassIff` | k-firewall-ebpf/src/main.rs:643-715 | The class found is the first of the classes in use every named field of which is the packet's, and its DSCP value is the mark |
| `PacketMeaning.TrackingIff` | k-firewall-ebpf/src/main.rs:1259-1399 | Which packets are of a live flow, answer one, are forwarded, or were expected by the FTP helper, in that order |
| `PacketMeaning.NewFlowIff` | k-firewall-ebpf/src/main.rs:1401-1634 | Exactly the new flows that the prefilter, a zone, the default action, SYN flood protection and the connection limit refuse, that a zone passes, and that are accepted |
| `PacketMeaning.UnreadFrames` | k-firewall-ebpf/src/main.rs:944-1111 | Frames on no known interface, that are no IP, or that cannot be read |
| `PacketMeaning.EarlyLeavesState` | k-firewall-ebpf/src/main.rs:1125-1230 | A packet decided before the limiters leaves connections, counters and buckets alone and makes its flow known only as a fragment that was allowed or local |
| `PruneInvisible.PruneInvisible` | k-firewalld/src/ebpf_loader.rs:1057-1084 | From states alike on unexpired entries, a run and the same run without its prunes give the same verdicts, counters, limiters and statistics, and stay alike on unexpired entries. With `Some(secs)`, fragment prunes are taken out too, for policies that wait no longer than `secs` and prunes no shorter |
| `PruneInvisible.PruneScheduleIrrelevant` | k-firewalld/src/ebpf_loader.rs:1065-1076 | Two runs that differ only in when and how often the daemon prunes cannot be told apart |
| `PruneInvisible.FragmentPruneInvisibleIff` | k-firewalld/src/ebpf_loader.rs:1373-1394 | For any prune and policy: a fragment prune hides no record, then or later, if and only if the policy waits no longer than the prune |
| `PruneInvisible.DaemonPairHidesNothing` | k-firewalld/src/ebpf_loader.rs:557-561 | The data plane is told to wait for the configured timeout, at most 255 seconds, and the daemon prunes after that timeout, so its prune hides nothing |
| `PruneInvisible.DaemonPrunesInvisible` | k-firewalld/src/main.rs:180-190 | In a run with the daemon's own timeouts no prune, of connections or of fragments, can be observed |
| `PruneInvisible.StepSame` | k-firewall-ebpf/src/main.rs:1259-1326 | No event but a reconcile looks at an expired entry: like states give the same verdict and like states |
| `PruneInvisible.PruneKeepsIff` | k-firewalld/src/ebpf_loader.rs:1057-1084 | A prune keeps exactly the connections not idle for longer than their state's timeout, unchanged |
| `PruneInvisible.FragmentPruneKeepsIff` | k-firewalld/src/ebpf_loader.rs:1373-1394 | And exactly the fragment records no older than its timeout |
| `Quotas.QuotasHold` | k-firewall-ebpf/src/main.rs:1582-1634 | On every run, for every source, the entries marked as connections (half-open) are at most the counter and at most the configured maximum, and entries marked half-open are half-open |
| `Quotas.NoDecrementAtZero` | k-firewall-ebpf/src/main.rs:392-401 | On every run an entry that is about to give back a count finds that count above zero, so the guard never hides a lost increment |
| `Quotas.StepKeepsSound` | k-firewall-ebpf/src/main.rs:479-539 | Every event (packet, NAT injection, prune, reconcile) keeps the quota invariant |
| `Quotas.Refresh` | k-firewall-ebpf/src/main.rs:515-539 | A refreshed entry gives back exactly the marks it loses, which keeps the quota invariant |
| `Quotas.AcceptNew` | k-firewall-ebpf/src/main.rs:1582-1631 | Inserting an accepted flow, even over an expired entry of the same key, keeps the quota invariant, and the increments do not wrap |
| `Quotas.ReconcileKeepsSound` | k-firewalld/src/ebpf_loader.rs:1400-1470 | Replacing the counters by tallies never puts a counter below the entries marked for it |
| `Tables.Provenance` | k-firewall-ebpf/src/main.rs:1725-1749 | Every packet passed by the conntrack fast path comes after an event that created its entry, and every hit since came within the timeout of the state then held |
| `Tables.EntriesHaveOrigins` | k-firewall-ebpf/src/main.rs:1566-1618 | Every tracked entry was created by an earlier event and remembers the time of its last sighting |
| `Tables.PacketSights` | k-firewall-ebpf/src/main.rs:1263-1399 | A packet changes the table at a key exactly when it creates or hits that key, and then the entry remembers the time |
| `Tables.NoTwinsOnRuns` | k-firewall-ebpf/src/main.rs:1259-1326 | At every reachable state a key and its reverse are not both unexpired non-NAT entries |
| `Tables.FragmentsFollowFirst` | k-firewall-ebpf/src/main.rs:829-900 | A fragment read as a later one that passes inspection follows a passed first fragment with the same addresses and protocol, no older than the fragment timeout (`ExtHeaders.FalseFirstIff` says which are read otherwise) |
| `Tables.FragmentTableJustified` | k-firewall-ebpf/src/main.rs:810-825 | Every entry of the fragment table is the time of a first fragment that was inspected and passed |
| `Availability.TrackedFlowPasses` | k-firewall-ebpf/src/main.rs:1259-1326 | While its flow is held, in either direction, a packet passes, whatever packets, prunes, reconciles and policy changes come between, unless an early stage or a limiter decides it |
| `Availability.LiveIff` | k-firewalld/src/ebpf_loader.rs:1065-1076 | On every run, at any time after it, an entry is live if and only if it was sighted, its session was not deleted since, and the timeout of the state that sighting left it in is not over; prunes play no part |
| `Availability.FastPathIff` | k-firewall-ebpf/src/main.rs:1259-1326 | A packet past the limiters takes the fast path if and only if its flow, in one direction or the other, is held in that sense |
| `Availability.HeldWithinShortest` | k-firewall-ebpf/src/main.rs:543-551 | Through all its states a flow is held until the shortest timeout after any sighting is over, if nobody deletes its session |
| `Availability.LiveFlowPasses` | k-firewall-ebpf/src/main.rs:1233-1326 | A packet of a live entry that reaches the limiters passes or is stopped by one of them; prefilter, zones and default action have no say |
| `Availability.DroppedLeavesNoTrace` | k-firewall-ebpf/src/main.rs:1610-1634 | A dropped packet opens no connection, makes no fragment flow known and counts towards no quota |
| `Availability.StatsCountVerdicts` | k-firewall-ebpf/src/main.rs:225-238 | The statistics of a run are the counts of its verdicts, modulo 2^64 |
| `Availability.SeenIsPassedOrDropped` | k-firewall-ebpf/src/main.rs:225-238 | Of any verdicts, those seen are those passed plus those dropped, and those of blocked sources are among the dropped |
| `RateBounds.WindowBoundOnRuns` | k-firewall-ebpf/src/main.rs:689-711 | On every run and window, what passes among the packets that reach a meter is at most its capacity plus the rate over the window: packets at the source limiter, bytes at a QoS class, new SYNs at the SYN limiter. Packets decided before a meter (allow-listed, local, known fragments; for SYNs also tracked, forwarded, expected and zone-passed flows) are not counted |
| `RateBounds.BoundsByLimiter` | k-firewall-ebpf/src/main.rs:295-327 | The same in the numbers of each limiter: packets of a source, bytes of a class, new SYNs of a source |
| `RateBounds.NeverOverfull` | k-firewall-ebpf/src/main.rs:318-320 | No run puts more tokens into a bucket than its capacity, or changes its rate or capacity |
| `RateBounds.BusyMeterStarves` | k-firewall-ebpf/src/main.rs:306-327 | The same over runs: such a run passes no more through a meter than the tokens there were when it began |
| `RateBounds.StepMeters` | k-firewall-ebpf/src/main.rs:1233-1257 | A bucket moves only when a packet asks for it, by exactly one take, and that packet passes only if the take succeeds |
| `RateBounds.TotalAtMostPassed` | k-firewall-ebpf/src/main.rs:295-327 | What a run lets through is at most what the bucket alone would let through of the same requests |
| `TokenBucket.WindowBound` | k-firewall-ebpf/src/main.rs:306-327 | Over any window, what a bucket passes is at most its capacity plus the rate over the window, even where the product wraps |
| `TokenBucket.SlowSourcePasses` | k-firewall-ebpf/src/main.rs:306-327 | A source that keeps to its rate is never stopped: when every gap earns a whole token every request passes |
| `TokenBucket.EarnedExactly` | k-firewall-ebpf/src/main.rs:309-317 | Up to 18,446,744 a second a gap earns the rate over it in whole tokens, over 1000 seconds at most |
| `TokenBucket.RefillGives` | k-firewall-ebpf/src/main.rs:306-321 | A refill adds what was earned up to the capacity, and moves the clock |
| `TokenBucket.TakeIff` | k-firewall-ebpf/src/main.rs:322-327 | A take succeeds if and only if the refilled bucket holds the cost, which is then gone from it |
| `TokenBucket.BoundHoldsIff` | k-firewall-ebpf/src/main.rs:702 | The window bound holds, for all requests in all windows, if and only if the bucket holds no more than the capacity; a burst configured below the tokens in hand breaks it |
| `TokenBucket.UnitBoundHoldsIff` | k-firewall-ebpf/src/main.rs:437 | The same with requests for one token each, as the source and SYN limiters make them |
| `TokenBucket.CapHoldsIff` | k-firewall-ebpf/src/main.rs:318-320 | Refills stay within the capacity, at every time, if and only if the bucket holds no more than the capacity |
| `TokenBucket.OverfullRefill` | k-firewall-ebpf/src/main.rs:702-704 | An overfull bucket is not capped at all: its refill adds everything earned, modulo 2^32 |
| `TokenBucket.ProductFitsIff` | k-firewall-ebpf/src/main.rs:310-317 | The product of the refill fits 64 bits for every elapsed time if and only if the rate is at most 18,446,744 a second |
| `TokenBucket.EarnsIff` | k-firewall-ebpf/src/main.rs:317-320 | After a gap of at most the clamp, at a rate that does not wrap, something is earned if and only if the gap is long enough for a whole token |
| `TokenBucket.BusySourceStarves` | k-firewall-ebpf/src/main.rs:317-320 | While every gap is too short for a whole token, no more than the tokens in hand is ever passed, however long the source goes on |
| `TokenBucket.EarnedAtMostRate` | k-firewall-ebpf/src/main.rs:309-317 | Clamping the window and wrapping the product only lose tokens |
| `Reconcile.ReconcileExact` | k-firewalld/src/ebpf_loader.rs:1400-1470 | After a reconcile each source's counters are its number of non-NAT entries and of half-open ones (saturated at 32 bits), and no other source has one |
| `Reconcile.ReconcileSeesPruneIff` | k-firewalld/src/ebpf_loader.rs:1411-1430 | A prune just before a reconcile changes its counters if and only if it removes a non-NAT entry |
| `Conntrack.HandshakeNeverReopens` | k-firewall-ebpf/src/main.rs:580-616 | No sequence of packets takes an established or closing flow back to half-open, nor a closing one back to established |
| `Conntrack.TimeWaitIffEvenFins` | k-firewall-ebpf/src/main.rs:580-616 | A closed flow is in TIME_WAIT if and only if an even number of bare FINs came since the last RST, else in FIN_WAIT |
| `Conntrack.HandshakeCompletesIff` | k-firewall-ebpf/src/main.rs:591-606 | Any packets that neither reset nor close establish a half-open flow if and only if one of them is an ACK without SYN or a reply with SYN and ACK; otherwise it is half-open still |
| `Conntrack.EstablishedStaysIff` | k-firewall-ebpf/src/main.rs:580-616 | An established flow stays so if and only if no packet resets it or is a bare FIN; the bare FIN takes it to FIN_WAIT |
| `Conntrack.StepIff` | k-firewall-ebpf/src/main.rs:580-616 | For each state, exactly the packets and states that lead to it |
| `Conntrack.ThreeWayHandshake` | k-firewall-ebpf/src/main.rs:580-637 | SYN, its answer and the ACK, and the ACK alone, establish a flow |
| `Conntrack.InitialStateIff` | k-firewall-ebpf/src/main.rs:620-637 | The first state, by protocol number and SYN flag |
| `Conntrack.ExpiresAsConfigured` | k-firewalld/src/config.rs:830-842 | An entry expires if and only if it was idle for longer than the timeout configured for its kind of state, and never for 0 |
| `FlowEntries.CountsGivenBack` | k-firewall-ebpf/src/main.rs:515-539 | On every run the packet that completes a handshake establishes its flow, clears the half-open mark and takes one off its source's half-open count; the packet that closes a flow does so for connections |
| `FlowEntries.HitWrites` | k-firewall-ebpf/src/main.rs:1263-1293 | A fast-path packet changes the one entry it matched: state, time, traffic in its direction, marks, and the counters of the marks that went |
| `FlowEntries.AcceptedWrites` | k-firewall-ebpf/src/main.rs:1582-1634 | The entry of an accepted flow field by field, and which counters its source goes up in |
| `FlowEntries.ExpectedWrites` | k-firewall-ebpf/src/main.rs:1354-1399 | An expected FTP connection gets an entry that counts nowhere |
| `FlowEntries.ExpectationsAfter` | k-firewall-ebpf/src/main.rs:559-572 | A hit uses up both expectations, a miss removes the stale ones, and nothing else |
| `FlowEntries.ExpectedConnectionPasses` | k-firewall-ebpf/src/main.rs:1354-1399 | A connection the FTP helper expects, from its port or from any, gets past prefilter, zones and default action until the expectation is over |
| `FlowEntries.ForwardedWrites` | k-firewall-ebpf/src/main.rs:1328-1352 | A forwarded packet enters the flow of the answer its new destination will send |
| `FlowEntries.AnswerToForwardedIsLive` | k-firewall-ebpf/src/main.rs:1328-1352 | So that answer finds a live entry until the timeout is over |
| `FlowEntries.AnswerToOutboundIsLive` | k-firewall-ebpf/src/main.rs:1688-1753 | And so does the answer to an outbound packet |
| `FlowEntries.LaterFragmentsPass` | k-firewall-ebpf/src/main.rs:857-900 | Once a first fragment has passed inspection its later fragments pass until the timeout is over |
| `FlowEntries.TrafficBalances` | k-firewall-ebpf/src/main.rs:1276-1289 | On every run, short of saturation, the packets of an entry are those in its direction and those against it |
| `Effects.DecideEffect` | k-firewall-ebpf/src/main.rs:1233-1634 | For each path a packet can take: what it writes to the connection table, under which key, and what it does to the counters |
| `SuricataMeaning.PrefilterMeaning` | k-firewall-ebpf/src/main.rs:1401-1410 | For any list of rules the double lookup passes a flow if and only if a contributing rule's header matches the flow or its reverse |
| `RuleTraffic.RulesOnTheWire` | k-firewall-ebpf/src/main.rs:1401-1410 | With the tables of any rules, a frame as an IPv4 sender writes it is let through if and only if some contributing rule's header matches what was sent, either way |
| `RuleTraffic.OneRuleOnTheWire` | k-firewalld/src/suricata_rules.rs:388-504 | A rule named tcp lets through exactly the TCP segments (protocol byte 6), udp exactly the datagrams (17), whose addresses and ports it names, either way; icmp (1) by addresses |
| `SuricataMeaning.ContributesIff` | k-firewalld/src/suricata_rules.rs:388-504 | Exactly the rules that contribute: enabled, of a known protocol other than ICMPv6, with fields that can be held, at most 128 combinations, each of which fits a table one way round |
| `SuricataMeaning.NamedProtocol` | k-firewalld/src/suricata_rules.rs:282-295 | The protocol numbers that rule names stand for, and which of them have ports |
| `SuricataMeaning.PrefilterMissesPortless` | k-firewalld/src/suricata_rules.rs:400-402 | No rules at all let through a packet read with both ports 0 whose protocol the rules take to have ports |
| `SuricataMeaning.ExpandMeaning` | k-firewalld/src/suricata_rules.rs:388-504 | One rule's tuples pass a flow if and only if its header matches the flow or its reverse |
| `SuricataMeaning.PushAllMeaning` | k-firewalld/src/suricata_rules.rs:433-484 | If every combination fits a table one way round, the tables see exactly the combinations, whichever way round each was stored |
| `SuricataMeaning.PushMeaning` | k-firewalld/src/suricata_rules.rs:304-381 | Pushing an orientation adds exactly the flows it matches, through whichever table it lands in, or nothing |
| `SuricataMeaning.KeyMeaning` | k-firewall-ebpf/src/main.rs:905-942 | A stored prefix covers a lookup key if and only if the exact fields are equal, the address is in the network and the source port agrees |
| `SuricataMeaning.CombosMeaning` | k-firewalld/src/suricata_rules.rs:442-462 | Some combination matches a flow if and only if each field of the rule does |
| `SuricataMeaning.AddrSpecMeaning` | k-firewalld/src/suricata_rules.rs:180-232 | The networks an address field expands to hold exactly the addresses the field means |
| `SuricataMeaning.PortSpecMeaning` | k-firewalld/src/suricata_rules.rs:236-279 | The ports a port field expands to mean what the field means, with 0 as the wildcard and ranges without it |
| `PolicySync.SyncedPrefilterMeaning` | k-firewalld/src/ebpf_loader.rs:831-872 | After a sync of all rules a flow is let through if and only if the prefilter is off, for want of configuration or of tuples, or a contributing rule's header matches the flow or its reverse |
| `PolicySync.UnreadPortsAreDropped` | k-firewall-ebpf/src/main.rs:796-807 | With the prefilter on, a new IPv4 flow whose protocol has ports in the rules but none in the reader is dropped, whatever the rules say |
| `PolicySync.OnlySctpIsUnread` | k-firewalld/src/suricata_rules.rs:282-295 | SCTP is the only protocol a rule can name for which that is so |
| `PolicySync.PrefilterReadsOldNoneOrNew` | k-firewalld/src/ebpf_loader.rs:831-872 | A packet between any two writes of a prefilter sync, key by key, meets the old prefilter, none, or the new one |
| `PolicySync.QosReadsOldNoneOrNew` | k-firewalld/src/ebpf_loader.rs:877-912 | A packet looking for its QoS class between any two writes of a sync finds the old one, none, or the new one |
| `HotSync.SyncReadsOldNoneOrNew` | k-firewalld/src/ebpf_loader.rs:918-941 | Between any two writes of a sync, the part of the array in use is the old one, nothing, or the new one cut to the array |
| `HotSync.SyncedArray` | k-firewalld/src/ebpf_loader.rs:918-941 | After a sync the array is the new entries cut to it, then zero slots, and the count is theirs |
| `Zones.EntriesMeaning` | k-firewalld/src/api.rs:2009-2061 | With contiguous netmasks the compiled entries decide as the first enabled, resolvable policy in list order that covers the packet in either direction |
| `Zones.SubnetFaithfulIffContiguous` | k-firewalld/src/api.rs:2025-2037 | The compiled subnet has the interface's members for every address if and only if the netmask is contiguous |
| `Zones.SyncReadsOldNoneOrNew` | k-firewalld/src/ebpf_loader.rs:918-941 | A packet between any two writes of a zone sync meets the old decision, none, or the new one |
| `Zones.SyncedDecision` | k-firewalld/src/ebpf_loader.rs:919-932 | After a sync the array decides as the longest run of leading policies whose entries fit 64 slots; the cut never splits a policy |
| `Zones.CoversIff` | k-firewalld/src/api.rs:2009-2061 | A policy covers a packet if and only if the first interfaces of its two names resolve, one is where the packet comes in, and the other's network has its destination |
| `Zones.MemberIff` | k-firewalld/src/api.rs:2025-2037 | An address is in an interface's network if and only if it agrees with the interface's wherever the mask is set; without a mask in 24 bits, without an address always |
| `Zones.DisabledIgnored` | k-firewalld/src/api.rs:2009-2061 | Disabled policies make no difference to any packet |
| `Zones.PrefixIff` | k-firewall-ebpf/src/main.rs:1435-1481 | A prefix covers exactly the addresses whose leading bits, as numbers, are its network's |
| `ZoneOrder.AddKeepsOrderIff` | k-firewalld/src/api.rs:1662-1685 | A list in the order of ids stays so if and only if the new id is above every id in it |
| `ZoneOrder.AddDecidesByIdIff` | k-firewalld/src/api.rs:1662-1685 | For any list and any addition: if the new policy covers the packet with a new lowest id, the orders agree on the packet if and only if it comes first too or acts as the first does; any other addition leaves their agreement as it was |
| `ZoneOrder.FirstOutOfOrder` | k-firewalld/src/api.rs:1662-1685 | The first addition out of order makes the two orders differ on exactly the packets on which an older policy with a higher id acts otherwise |
| `ZoneOrder.RestartDecidesAlikeIff` | k-firewalld/src/persist.rs:881-896 | Loading the policies by id, as a restart does, leaves the decision on a packet alone if and only if the list decided it by id, whatever additions made that list |
| `ZoneOrder.OverruledAddition` | k-firewalld/src/api.rs:2005-2061 | Two overlapping policies on which the two orders decide differently |
| `DhcpLeases.NeverFailsEarlyIff` | k-firewalld/src/dhcp.rs:180-197 | Allocation with fewer than 4096 live leases and no offset overflow always grants an address, if and only if the pool's prefix is not all zero |
| `DhcpLeases.ProbeSucceeds` | k-firewalld/src/dhcp.rs:184-193 | Pigeonhole: with fewer than 4096 live leases the 4096-step probe finds a free address |
| `DhcpLeases.ProbeIsFirstFree` | k-firewalld/src/dhcp.rs:184-193 | The probe gives the address of the first offset of its stretch that is not taken, and goes on after it |
| `DhcpLeases.OwnersOfWindow` | k-firewalld/src/dhcp.rs:184-193 | A window of addresses all in use has as many live clients as addresses |
| `DhcpLeases.AddressesMeetIff` | k-firewalld/src/dhcp.rs:164-172 | Two offsets give one address if and only if bits 0 to 15 and 32 to 47 of the offsets plus one agree; the other bits are lost |
| `DhcpLeases.AddressIsSumIff` | k-firewalld/src/dhcp.rs:164-172 | As a number the address is the base plus the offset plus one if and only if that is below 65536 |
| `DhcpLeases.SumIsKeptIff` | k-firewalld/src/dhcp.rs:166-171 | Read as the two segments the source adds, the sum is kept if and only if its bits 16 to 31 and 48 to 63 are zero |
| `DhcpLeases.NearOffsetsDiffer` | k-firewalld/src/dhcp.rs:164-172 | Offsets less than 65536 apart give different addresses |
| `DhcpLeases.FarOffsetsCollide` | k-firewalld/src/dhcp.rs:164-172 | Offsets 65536 apart below 2^32 give the same address |
| `DhcpLeases.AddrAtInPool` | k-firewalld/src/dhcp.rs:164-172 | Every address generated is in the pool |
| `DhcpLeases.LeaseSafety` | k-firewalld/src/dhcp.rs:588-631 | After every operation of every run, and at any later time, no two unexpired leases share an address and every leased address is in the pool |
| `DhcpLeases.SameAddressAgain` | k-firewalld/src/dhcp.rs:593-598 | A client asking again before expiry gets the same address, whatever others did in between |
| `DhcpLeases.AskKeepsSafe` | k-firewalld/src/dhcp.rs:588-611 | One allocation keeps leases safe, and a granted address is the client's unexpired lease |
| `DhcpLeases.AskKeepsLease` | k-firewalld/src/dhcp.rs:593-598 | An unexpired lease survives any client's request, and its own client's request returns it |
| `DhcpMessages.ReleaseFrees` | k-firewalld/src/dhcp.rs:506-531 | A datagram whose first byte is 8 or 9 frees the lease of its client and association, and no other |
| `DhcpMessages.OnlyReleaseTakesAway` | k-firewalld/src/dhcp.rs:423-535 | No other datagram takes away or changes an unexpired lease |
| `DhcpMessages.DatagramIsOp` | k-firewalld/src/dhcp.rs:464-533 | Each datagram is a request for its client, a release for its client, or does nothing, by its first byte and fields |
| `DhcpMessages.DatagramsKeepSafe` | k-firewalld/src/dhcp.rs:423-535 | After any datagrams whatever, and at any later time, no two unexpired leases share an address |
| `DhcpMessages.SameAddressForDatagrams` | k-firewalld/src/dhcp.rs:593-598 | A client that asks again before its lease runs out, having released nothing, is granted the same address, whatever other datagrams came |
| `DhcpMessages.RequestReadsBack` | k-firewalld/src/dhcp.rs:423-463 | What is read of a datagram is what its sender put there: kind, transaction id, first client id, first association, rapid commit |
| `DhcpMessages.AskedIaReadsBack` | k-firewalld/src/dhcp.rs:438-463 | The association id and the address a client puts into its request are read back |
| `DhcpMessages.CutIaReadsBack` | k-firewalld/src/dhcp.rs:438-463 | A cut-off association has no address before its twelfth byte and no id before its fourth |
| `DhcpMessages.AnswerIff` | k-firewalld/src/dhcp.rs:464-533 | Which datagrams are answered, by an advertise or by a reply, with the transaction id they came with |
| `DhcpMessages.AnswerSays` | k-firewalld/src/dhcp.rs:464-564 | The answers in full by option code: ids, status, rapid commit, association with its times and address |
| `DhcpLeases.LifetimeKeptIff` | k-firewalld/src/dhcp.rs:593-609 | After a request the lease lasts as long as the reply promises if and only if the client did not hold a shorter unexpired one, which is returned without being extended |
| `DhcpLeases.AnswerIsLease` | k-firewalld/src/dhcp.rs:423-535 | End to end, for every request answered: the address decoded from the bytes of the answer, if there is one, is the one the client's lease now holds, or `::`; answers that grant nothing carry none |
| `DhcpLeases.ReplyReadsBack` | k-firewalld/src/dhcp.rs:464-533 | Every reply parses back to itself: the request's transaction id, then the server's id, then the client's |
| `DhcpLeases.ReplyCarriesAddress` | k-firewalld/src/dhcp.rs:544-555 | When an address was granted the reply's IA_NA decodes to the client's association id and that address |
| `DhcpLeases.OtherRepliesCarryNone` | k-firewalld/src/dhcp.rs:504-535 | Release, decline, information, missing-association and off-link replies carry no address |
| `DhcpCodec.OptionsSurviveIff` | k-firewalld/src/dhcp.rs:121-141 | A list of options survives writing and parsing if and only if all of them fit the length field |
| `DhcpCodec.OptionsRoundTrip` | k-firewalld/src/dhcp.rs:121-141 | Parsing inverts writing, for any options of at most 65535 bytes, also before a tail too short for an option (section 21.1 of RFC 8415) |
| `DhcpCodec.OneOptionSurvivesIff` | k-firewalld/src/dhcp.rs:121-125 | An option survives the round trip if and only if its data fits the length field |
| `DhcpCodec.IaNaRoundTrip` | k-firewalld/src/dhcp.rs:544-555 | The association written by the server decodes to the same id and address |
| `DhcpCodec.MessageRoundTrip` | k-firewalld/src/dhcp.rs:423-429 | A message of fitting options reads back as written |
| `Dscp.MarkKeepsChecksum` | k-firewall-ebpf/src/main.rs:718-765 | For a valid IPv4 header of any length, marking keeps it valid, sets DSCP, keeps ECN and all else, and the new checksum is the one recomputed from scratch |
| `Dscp.IncrementalIsRecomputed` | k-firewall-ebpf/src/main.rs:744-751 | The two-fold incremental update (section 3 of RFC 1624) equals recomputation |
| `Dscp.MarkV6Fields` | k-firewall-ebpf/src/main.rs:769-791 | The IPv6 DSCP field reads back as written; version, ECN and flow label are kept |
| `Frames.MarkInvisible` | k-firewall-ebpf/src/main.rs:1246-1274 | A marked frame reads as the same frame, so it makes no difference that TCP flags are read after QoS has written its mark |
| `Frames.MarkWritten` | k-firewall-ebpf/src/main.rs:683-687 | The mark is in the type of service of an IPv4 frame, whose ECN bits stay, or the traffic class of an IPv6 frame; any other frame goes out as it came |
| `Frames.MarkedHeader` | k-firewall-ebpf/src/main.rs:720-765 | The IPv4 header inside a marked frame, as long as its first byte says, is the marked header of the frame that came in |
| `Frames.MarkedFrameKeepsChecksum` | k-firewall-ebpf/src/main.rs:720-765 | So it is valid if it was valid before |
| `SentFrames.V4ReadsBack` | k-firewall-ebpf/src/main.rs:979-1022 | What an IPv4 sender writes (section 3.1 of RFC 791) is what is read, wherever the header starts: for any protocol, fragment field, options and payload the flow and the fragment flags come back, with ports 0 for later fragments and other protocols |
| `SentFrames.V4FrameReadsBack` | k-firewall-ebpf/src/main.rs:944-1022 | The same from the first byte of the frame: any hardware addresses, untagged or with a tag of either kind, whose VLAN id comes back |
| `SentFrames.V6ReadsBack` | k-firewall-ebpf/src/main.rs:1024-1111 | What an IPv6 sender writes (section 3 of RFC 8200) is what is read, for any source, destination, payload and chain of options, routing, fragment and AH headers; or it is refused, exactly when the chain has more than five headers or ends past offset 128 |
| `SentFrames.V6FrameReadsBack` | k-firewall-ebpf/src/main.rs:944-1123 | The same from the first byte of the frame |
| `SentFrames.ChainReadsBack` | k-firewall-ebpf/src/main.rs:1033-1093 | The walk over an encoded chain ends after its last header, with the upper-layer protocol and the fragment fields sent |
| `SentFrames.SegmentReadsBack` | k-firewall-ebpf/src/main.rs:796-807 | Ports, TCP flags (section 3.1 of RFC 9293) and ICMPv6 type are read where they were written |
| `SentFrames.OutboundReadsBack` | k-firewall-ebpf/src/main.rs:1688-1749 | An outbound packet of either family, without extension headers and no later fragment, is seen with the flow it was sent with |
| `Frames.EgressAgreesIff` | k-firewall-ebpf/src/main.rs:1688-1769 | Of a packet the inbound side can read, both directions see the same flow if and only if, over IPv4, it is no later fragment or its payload holds no port bytes that count, and over IPv6 it has no extension headers |
| `Frames.V4ReadableIff` | k-firewall-ebpf/src/main.rs:979-1022 | Exactly the IPv4 packets that can be read: a header of twenty bytes or more, and its ports if it is no later fragment |
| `Frames.V6ReadableIff` | k-firewall-ebpf/src/main.rs:1024-1111 | Exactly the IPv6 packets that can be read, and which show an ICMPv6 type |
| `Frames.OutboundReadableIff` | k-firewall-ebpf/src/main.rs:1688-1749 | Exactly the outbound packets that can be read; ports that are cut off are 0 |
| `ExtHeaders.WalkBounded` | k-firewall-ebpf/src/main.rs:1033-1093 | The bounded loop refines the unbounded chain: same protocol, offset and fragment fields exactly when the chain lies in the packet, has at most five headers and ends at offset at most 128; a drop otherwise |
| `ExtHeaders.ReadsOffsets` | k-firewall-ebpf/src/main.rs:1053-1076 | Of the fragment headers of a chain the walk reads the last offset, and whether any offset was 0 |
| `ExtHeaders.FalseFirstIff` | k-firewall-ebpf/src/main.rs:1070-1076 | A packet is taken for a first fragment while its last offset is not 0 if and only if one of several fragment headers has offset 0 and the last has not |
| `ExtHeaders.TwoHeadersReadAsFirst` | k-firewall-ebpf/src/main.rs:1070-1076 | Such a chain: offsets 0 and 1 |
| `ExtHeaders.EndsInUpperLayer` | k-firewall-ebpf/src/main.rs:1091 | What the walk ends in is never an extension header |
| `ExtHeaders.WalkIgnoresTail` | k-firewall-ebpf/src/main.rs:1035-1091 | Bytes after the chain cannot change what the walk finds |
| `ExtHeaders.CutChainIff` | k-firewall-ebpf/src/main.rs:1035-1091 | A chain can be read in a packet that is cut short if and only if the cut leaves two bytes of its last header, or four of a fragment header; then it reads as before |
| `Cidr.MatchersAgreeIff` | k-firewalld/src/ebpf_loader.rs:1820-1870 | The byte-wise and the integer-mask matcher agree on every address of a specification's family if and only if its prefix is not written as `/0` |
| `Cidr.ZeroPrefix` | k-firewalld/src/ebpf_loader.rs:1834-1842 | With `/0` the integer matcher takes everything, the byte-wise one only the address itself |
| `Cidr.BytewiseIsTopBits` | k-firewalld/src/ebpf_loader.rs:1851-1869 | Comparing whole bytes and then a masked byte is comparing the leading bits of the numbers |
| `SessionId.SessionIdRoundTrip` | k-firewalld/src/ebpf_loader.rs:422-446 | Decoding a session id gives back its five-tuple |
| `SessionId.IdSpells` | k-firewalld/src/ebpf_loader.rs:400-420 | An id spells family, protocol, the two addresses and the two ports, in that order, ports in network order |
| `SessionId.DigitIff` | k-firewalld/src/ebpf_loader.rs:427 | Which characters are digits, and of what value, in either case |
| `SessionId.ReadingOrder` | k-firewalld/src/ebpf_loader.rs:423-446 | The order in which a bad pair is met: the addresses in step, the ports, then family and protocol |
| `SessionId.SessionIdsUnique` | k-firewalld/src/ebpf_loader.rs:399-420 | Two five-tuples with one id are equal |
| `SessionId.IdComesBackIff` | k-firewalld/src/ebpf_loader.rs:422-446 | Of the strings that decode, exactly those in lower-case digits are the id of what they decode to |
| `SessionId.DecodeFindsIff` | k-firewalld/src/ebpf_loader.rs:423-446 | Decoding text finds a key if and only if the text spells it |
| `SessionId.DecodePanicsIff` | k-firewalld/src/ebpf_loader.rs:427 | Decoding panics if and only if text of the right length has a character across the edge of a pair, before any pair, in the order of reading, that is whole and spells no byte |
| `SessionId.OtherSpellings` | k-firewalld/src/ebpf_loader.rs:427 | One of the others: a plus sign for a leading zero |
| `DataPlane.Maps.TryKFirewall` | k-firewall-ebpf/src/main.rs:944-1677 | A frame of bytes: state and verdict are those of `Pipeline.Packet` on the frame as read, the bytes let out are the frame with its mark, and a frame too short for its link header is dropped with nothing changed |
| `DataPlane.RefillBucket` | k-firewall-ebpf/src/main.rs:306-321 | The refill step by step, with 64-bit wrap-around, is `Refill` |
| `DataPlane.Maps.EarlyStage` | k-firewall-ebpf/src/main.rs:1125-1230 | Blocked source, fragment policy, ND filter, allow list, local destination, in that order, and the fragment record they leave |
| `DataPlane.Maps.CheckedStage` | k-firewall-ebpf/src/main.rs:1233-1257 | Source limiter, then QoS, then tracking; the QoS mark is kept on every later path |
| `DataPlane.Maps.TrackStage` | k-firewall-ebpf/src/main.rs:1259-1326 | The entry of the key if live, else the entry of the reverse key if live, else a new flow |
| `DataPlane.Maps.RefreshEntry` | k-firewall-ebpf/src/main.rs:1264-1293 | A hit writes the refreshed entry under its own key and gives back counts to that key's source |
| `DataPlane.Maps.RefreshValue` | k-firewall-ebpf/src/main.rs:1276-1289 | Direction counters saturate, time and state move, marks are given back |
| `DataPlane.Maps.CountersTick` | k-firewall-ebpf/src/main.rs:515-539 | Leaving half-open gives back the half-open mark, entering TIME_WAIT the connection mark; NAT entries give back nothing |
| `DataPlane.Maps.DnatStage` | k-firewall-ebpf/src/main.rs:1328-1352 | A port-forwarding hit expects the reply from the forwarded address and passes |
| `DataPlane.Maps.AlgStage` | k-firewall-ebpf/src/main.rs:1354-1399 | An FTP expectation with the exact or the wildcard source port is used up, both together, and opens the data connection |
| `DataPlane.Maps.AlgExpectHit` | k-firewall-ebpf/src/main.rs:559-572 | A stale expectation is removed and does not count |
| `DataPlane.Maps.NewFlowStage` | k-firewall-ebpf/src/main.rs:1328-1399 | Port forwarding, then FTP expectations, then admission |
| `DataPlane.Maps.GateStage` | k-firewall-ebpf/src/main.rs:1401-1564 | Prefilter in two views, zone policies, default action |
| `DataPlane.Maps.AdmitStage` | k-firewall-ebpf/src/main.rs:1401-1564 | A gated flow keeps the maps as they are, but for the fragment record of a zone pass |
| `DataPlane.Maps.AdmitNewStage` | k-firewall-ebpf/src/main.rs:1566-1634 | SYN check, connection limit, insertion; the first that refuses decides |
| `DataPlane.Maps.SynStage` | k-firewall-ebpf/src/main.rs:1582-1595 | Only a TCP SYN takes a SYN token |
| `DataPlane.Maps.InsertNew` | k-firewall-ebpf/src/main.rs:1610-1634 | Entry, counters and marks end up consistent: a mark is set exactly where a counter was incremented |
| `DataPlane.Maps.RateLimitedCheck` | k-firewall-ebpf/src/main.rs:295-327 | A source with a configured limit takes one token, any other source is unlimited |
| `DataPlane.Maps.ApplyQos` | k-firewall-ebpf/src/main.rs:643-715 | The first matching class, and only it, marks the packet and charges its bytes |
| `DataPlane.Maps.SynFloodCheck` | k-firewall-ebpf/src/main.rs:407-477 | Token bucket first, then the half-open limit; each can be switched off |
| `DataPlane.Maps.ConnLimitCheck` | k-firewall-ebpf/src/main.rs:346-367 | Refuses exactly when the source has a limit and its counter has reached it |
| `DataPlane.Maps.ConnCountInc` | k-firewall-ebpf/src/main.rs:372-388 | Counts exactly the sources that have a limit |
| `DataPlane.Maps.SynCountInc` | k-firewall-ebpf/src/main.rs:482-494 | Counts exactly when the half-open limit is on |
| `DataPlane.Maps.ConnCountDec` | k-firewall-ebpf/src/main.rs:392-401 | Never goes below zero, never creates an entry |
| `DataPlane.Maps.SynCountDec` | k-firewall-ebpf/src/main.rs:498-507 | Never goes below zero, never creates an entry |
| `DataPlane.Maps.HandleFragments` | k-firewall-ebpf/src/main.rs:857-900 | Drop, inspect or pass; under inspection a first fragment goes on and a later one passes exactly if its flow is known |
| `DataPlane.Maps.FragTrackUpdate` | k-firewall-ebpf/src/main.rs:810-825 | Records the time under the fragment key, for fragments only |
| `DataPlane.Maps.BumpStats` | k-firewall-ebpf/src/main.rs:225-238 | Each counted packet is either passed or dropped |
| `DataPlane.Maps.TcEgress` | k-firewall-ebpf/src/main.rs:1688-1753 | An outbound frame that can be read writes a NAT reply entry under the reverse of its flow, over whatever was there; any other changes nothing |
| `DataPlane.Maps.PruneConntrack` | k-firewalld/src/ebpf_loader.rs:1057-1084 | Exactly the live entries stay, in whatever order they are visited, and the count of removals is right |
| `DataPlane.Maps.PruneFragTrack` | k-firewalld/src/ebpf_loader.rs:1373-1394 | Exactly the unexpired fragment records stay |
| `DataPlane.Maps.ReconcileConnCounts` | k-firewalld/src/ebpf_loader.rs:1400-1470 | Both counter tables are replaced by tallies; nothing else changes |
| `DataPlane.TallyEntries` | k-firewalld/src/ebpf_loader.rs:1410-1430 | The tallies do not depend on the order in which entries are visited |
| `DataPlane.Maps.DecideFrame` | k-firewall-ebpf/src/main.rs:1125-1677 | After parsing, one packet takes the maps to exactly the state and verdict of `Pipeline.Packet` |
| `DataPlane.Maps.StagesOf` | k-firewall-ebpf/src/main.rs:1125-1634 | The stages alone: the outcome of `Decide` written to the maps |
| `DataPlane.Maps.MarkInPlace` | k-firewall-ebpf/src/main.rs:683-687 | The mark goes into the header of the family the link header names |
| `DataPlane.Maps.DeleteSessions` | k-firewalld/src/ebpf_loader.rs:1308-1329 | Exactly the named entries go, and the count is of those that were there |
| `Frames.ParseFrame` | k-firewall-ebpf/src/main.rs:944-1111 | Link header with its VLAN tag, IPv4 or IPv6 header, fragment fields, ports and flags, each with its length check, read as `ReadFrame` says |
| `Frames.ParseV6` | k-firewall-ebpf/src/main.rs:1024-1111 | The IPv6 part, by the bounded walk |
| `Dscp.MarkIpv4` | k-firewall-ebpf/src/main.rs:720-765 | The rewrite in place changes the header to `Marked` and no other byte of the frame, or nothing when the frame ends before the checksum does |
| `Dscp.MarkIpv6` | k-firewall-ebpf/src/main.rs:769-791 | The rewrite in place changes the first two header bytes to `MarkedV6` and no other |
| `Suricata.ExpandHeader` | k-firewalld/src/suricata_rules.rs:388-504 | The four nested loops give the tuples, skip or rejection of `Expand` |
| `Suricata.ExpandCombos` | k-firewalld/src/suricata_rules.rs:440-484 | The loops push every combination, both ways round, in order |
| `Suricata.ResyncPrefilter` | k-firewalld/src/api.rs:541-553 | The tables are those of all rules, and the switch is on exactly if configured and some tuple exists |
| `PolicySync.PrefilterMaps.Sync` | k-firewalld/src/ebpf_loader.rs:831-872 | The method makes exactly the writes of `SyncWrites`, in that order |
| `PolicySync.PrefilterMaps.Clear` | k-firewalld/src/ebpf_loader.rs:1478-1483 | One removal for each key listed, and the other tables are left alone |
| `Zones.Lookup` | k-firewall-ebpf/src/main.rs:1435-1481 | The bounded loop gives the action of the first matching entry in use |
| `Zones.EntriesFromRows` | k-firewalld/src/api.rs:2009-2061 | The loop over policies, disabled and unresolvable ones skipped, gives `Entries` |
| `ZoneOrder.PolicyList.Add` | k-firewalld/src/api.rs:1651-1688 | An id in use is refused; any other addition goes to the end of the list whatever its id, and an id the list gives out is above every id in it |
| `HotSync.SlotMaps.Sync` | k-firewalld/src/ebpf_loader.rs:918-941 | The method makes exactly the writes of `SyncWrites`, in that order: off, every slot cleared, filled from slot 0, on |
| `DhcpCodec.ParseOptions` | k-firewalld/src/dhcp.rs:128-141 | The loop over a shrinking slice gives `Parse`, a cut-off tail dropped |
| `Dhcp.ParsePool` | k-firewalld/src/dhcp.rs:260-282 | A prefix of at most 64 bits is accepted, every host bit cleared and its leading bits kept |
| `Dhcp.InPoolBytes` | k-firewalld/src/dhcp.rs:566-585 | The masked byte loop decides equality of the leading bits |
| `Dhcp.Server.PruneExpired` | k-firewalld/src/dhcp.rs:614-631 | At most sixteen leases go, only expired ones, and all expired ones if fewer |
| `Dhcp.Server.AllocAddr` | k-firewalld/src/dhcp.rs:180-197 | The bounded probe gives the first free address, and moves the offset only on success |
| `Dhcp.Server.AllocFor` | k-firewalld/src/dhcp.rs:588-611 | An unexpired lease is given again unchanged; otherwise an expired one goes and a new lease is made, unless the pool gave none |
| `Dhcp.Server.Release` | k-firewalld/src/dhcp.rs:200-203 | Removes the client's lease and no other |
| `Dhcp.Server.HandleMessage` | k-firewalld/src/dhcp.rs:423-535 | The bytes answered are those of the one right reply or none, and the leases change only as that kind of message may change them |
| `Dhcp.Server.AnswerBody` | k-firewalld/src/dhcp.rs:466-533 | After the two ids, each kind of message adds its options and changes the leases as that kind may |
| `Dhcp.Server.AnswerWithAddress` | k-firewalld/src/dhcp.rs:467-505 | Solicit, request, renew and rebind: rapid commit, then the association |
| `Dhcp.Server.PushAssociation` | k-firewalld/src/dhcp.rs:489-504 | Which association goes into the answer: none asked for, off-link, or a grant |
| `SessionId.SessionIdFull` | k-firewalld/src/ebpf_loader.rs:400-420 | The pushing loop spells `IdOf` |
| `SessionId.SessionKeyFromFullId` | k-firewalld/src/ebpf_loader.rs:423-446 | The first bad pair in the order of reading decides: a panic inside a character, or a refusal |

## Left out

- Frames.ParseFrame: the sizes of the link, IP and ICMPv6 headers are those of the standards; the header library the
  source reads them with is not part of this model.
- DataPlane.Maps.TryKFirewall: the mark is written after the stages, not between QoS and tracking; `Frames.MarkInvisible`
  says that this makes no difference.
- DataPlane.Maps.BumpStats: the counters of one CPU; their sum over CPUs is not modelled.
- RateBounds.WindowBoundOnRuns: limits are fixed over a run, since a shrunk burst breaks the bound
  (`TokenBucket.BoundHoldsIff`).
- Quotas.QuotasHold: limits are fixed over a run. A limit introduced or lowered while connections are open is met only
  as they close.
- Zones.SyncedDecision: a reader that takes several entries while a sync is under way is not modelled, only a reader
  between two writes.
- PolicySync.PrefilterReadsOldNoneOrNew: likewise, a reader between two writes; and a table keeps a key written twice
  twice, which lookups cannot tell.
- ZoneOrder.PolicyList.Add: the checks on a request and the database are left out; ids are given out as without one.
- DhcpLeases.NeverFailsEarlyIff: offsets do not pass the largest 64-bit number. At that point the source's increment
  overflows.
- Cidr.MatchersAgreeIff: compares addresses of the specification's family. The byte-wise matcher is handed sixteen
  bytes and does not look at the family.
- Map handles, program attachment, verifier workarounds, maps that are full or evict entries, and interleaving within
  a step: a step is atomic and maps are unbounded. Per-CPU buckets are one bucket.
- The daemon's snapshot-then-write passes racing with packets: `prune_conntrack`, `reconcile_conn_counts` and session
  deletion are atomic steps.
- Hot sync of the rate limit table: replaced between packets.
- Byte order of QoS and port-forwarding keys: both sides write network order, and the swaps cancel.
- Text of rules, addresses, ports, CIDRs, pools and deletion filters: the model starts from the split-up fields and from
  the keys a filter selects. A rule's text is read by a scanner that is not part of this model.
- Session log events, session metadata, log lines, syslog and statistics output.
- HTTP routing, authentication, persistence, YAML configuration, netlink, nftables, sockets and multicast.
- The other lists kept in the database and their create, update and delete operations: they would add only easy members.
