# Auto XDP, modelled and proved in Dafny

This project models the parts of Auto XDP whose behaviour is hardest to see by
reading them: the packet programs as state machines over every run and every
interleaving, and the userspace transactions that configure them under every
pattern of failing steps.

* **Groundwork.** `Words`, `Division`, `Sets` and `SpanBound` hold the
  arithmetic, `Runs` what a run shows and tables that differ in dead entries.
* **Limiters.** `RateLimiter` is the windowed limiter on one packed (tick,
  count) word with 32-bit ticks; `CasLimiter` is the same limiter step by step under every
  schedule of any number of CPUs. `UdpLimiter`, `UdpWindow` and `UdpOverflow` are the
  two-level UDP byte limiter: a conservation ledger over all CPUs, the shared
  two-bucket window, and which windows its 64-bit comparison can take;
  `UdpVerdicts` tells its drops from the history alone. `TokenBucket` is the ICMP
  echo bucket.
* **Stateful filter.** `Flows` holds tuples and source prefixes. `TcpTable` is
  the TCP table as ingress, egress and userspace change it, and `TcpVerdicts`
  says exactly which segments pass; `ConnCounters`, `ConnActivity` and `ConnDrift`
  are the connection counters kept beside it; `TcpGc` and `UdpTable` say what
  packets can see of garbage collection and what replies are guaranteed.
* **Port handler.** `MinecraftWire` parses packets, `MinecraftPackets` writes them,
  `MinecraftGrammar` says exactly what the parsers accept. `Minecraft` is the
  handler that promotes flows into the table, `MinecraftClients` and
  `MinecraftVerdicts` which clients it serves and which it blocks.
* **Ring buffer.** `RingMemory` is the circular byte area, `RingBuffer` the
  producers' reserve, fill, submit and discard steps, `RingReader` the draining
  reader, `RingDelivery` what both bring about together.
* **Userspace.** `HandlerSwap` (program swap with rollback), `Blocklist`
  (list replacement with rollback), `PolicyRows` and `Reconcile` (diff-and-apply
  over shared rows, and protect before expose), `StaleRounds` (hysteresis).

Each component has a step function over values, lemmas about every run of it,
and, where the source works in place, a class whose methods follow the source
and are proved equal to the step function.

Assumptions, all visible in the contracts: clocks do not run backwards and stay
below 2^63; the configuration is fixed during a run and zero fields have been
replaced by their defaults; a map operation that fails changes nothing; tables
do not evict.

Where a property one would expect does not hold of the code without a
condition, the model follows the code, and a lemma gives an input that breaks it
beside the lemma that states when it holds: `UdpOverflow.ExactIffFits`,
`ConnCounters.RefreshMustCoverSyn`, `ConnDrift.CountersDrift`,
`TcpGc.DeletionUnseen`, `TcpGc.FinSeesEveryDeletion`, `UdpTable.ReplyGuarantee`,
`UdpTable.DeletionUnseen`, `Blocklist.UndoCovers`, `Blocklist.UndoCoversAlways`,
`PolicyRows.OneSettles`, `PolicyRows.UnwantedRows`, `PolicyRows.LimitsReached`,
`MinecraftPackets.HandshakeReads`, `MinecraftPackets.HandshakeDoublesAsLogin`,
`Minecraft.PromotesExactly`, and the pinning clauses of
`HandlerSwap.Switch.FileSwap` and `HandlerSwap.Switch.DirSwap`.

## Model

| member | source | states |
|---|---|---|
| SpanBound.TwiceTheLimit | bpf/include/rate_limit.h:140-176 | when windows start at least a width apart and each takes at most the limit, no span of one width sees more than twice the limit |
| RateLimiter.DecideMeans | bpf/include/rate_limit.h:118-176 | for whatever the packed word counts, an increment within the limit is admitted exactly when the window has run out, as far as 32-bit ticks show, or has room left, and the word stored says so; a window seen to have run out really has |
| RateLimiter.RunFaithful | bpf/include/rate_limit.h:118-176 | after every run the word's tick names the current window and its count is exactly what that window admitted |
| RateLimiter.AdmitsExactly | bpf/include/rate_limit.h:140-176 | after every clock-ordered run a request is admitted exactly when, by what was charged before, there is no window, it is over, or it has room; and it is charged to a new window or the current one accordingly |
| RateLimiter.OverIsOver | bpf/include/rate_limit.h:158-160 | a window over for less than 2^32 ticks never keeps a request within the limit from passing, however full it was |
| RateLimiter.WindowInTime | bpf/include/rate_limit.h:118-136 | in nanoseconds, a window is not over a millisecond before its length has passed, and is two milliseconds after |
| RateLimiter.RateBound | bpf/include/rate_limit.h:118-176 | at most twice the limit is admitted in any span of one window, also when the span begins and ends inside a tick |
| RateLimiter.SharedCell.Check | bpf/include/rate_limit.h:140-176 | the retry loop: a pass stores one decision on what rivals left, a drop stores nothing; without rivals it agrees with the atomic decision |
| CasLimiter.EveryScheduleLinearizes | bpf/include/rate_limit.h:140-176 | under every interleaving of lookup, create, read and swap the returned requests form a serial history of the atomic limiter, each exactly once, ending in the stored word; running out of attempts needs sixteen admitted rivals |
| CasLimiter.StoredCount | bpf/include/rate_limit.h:140-176 | the stored count equals the increments admitted since the window began, and the rate bound's ledger is the log of passes |
| CasLimiter.ConcurrentRateBound | bpf/include/rate_limit.h:140-176 | twice the limit bounds the passes of any number of racing CPUs in any span of one window |
| UdpLimiter.Ledger | bpf/include/rate_limit.h:807-904 | in every multi-CPU run, the bytes of all packets answered PASS = bytes charged + per-CPU residues + the passed part of refused flushes; residues stay below a batch and are zero while blocked |
| UdpLimiter.OneRefusalPerBlock | bpf/include/rate_limit.h:807-904 | no CPU has two refused flushes under one block deadline |
| UdpLimiter.Overshoot | bpf/include/rate_limit.h:807-904 | passed <= charged + CPUs * 65536 * (1 + number of blocks) |
| UdpVerdicts.DropsExactly | bpf/include/rate_limit.h:807-904 | after every multi-CPU run a packet is dropped exactly when its CPU's latest refusal deadline is still ahead, or it completes a batch of 64 KiB and the latest block is still ahead or the batches charged since that block, weighed over two buckets, exceed the rate; charges, refusals, deadlines and residues move on accordingly |
| UdpVerdicts.BelowBatchExactly | bpf/include/rate_limit.h:807-845 | whatever the window, a packet that completes no batch is dropped exactly while its CPU's latest refusal lasts |
| UdpLimiter.SharedLimiter.BlockFastPath | bpf/include/rate_limit.h:807-818 | drops and empties the accumulator while the CPU's block lasts, clears it afterwards |
| UdpLimiter.SharedLimiter.FlushBatch | bpf/include/rate_limit.h:850-903 | the critical section in 64-bit arithmetic equals the step function |
| UdpLimiter.SharedLimiter.RateCheck | bpf/include/rate_limit.h:820-904 | one packet on one CPU changes accumulator and shared state as the step function says, with its verdict |
| UdpWindow.ComparisonExact | bpf/include/rate_limit.h:886-893 | when (max(rate, largest batch) + largest batch) * window fits 64 bits, no term of the comparison overflows on buckets that weigh no more than one may take, and it decides the exact inequality |
| UdpWindow.SecondsFit | bpf/include/rate_limit.h:886-893 | windows up to 0xFFFD_FFDA ns (4.29 s) fit for every rate and packet size |
| UdpOverflow.FitsNeverMisjudges | bpf/include/rate_limit.h:844-903 | when that product fits for the largest possible batch, no batch of any multi-CPU run is misjudged |
| UdpOverflow.WideWindowMisjudges | bpf/include/rate_limit.h:886-893 | for every rate and every wider window, up to windows the clock cannot pass, there is a run from the start, of one CPU and legal packets, whose last batch is judged otherwise than over unbounded integers |
| UdpOverflow.ExactIffFits | bpf/include/rate_limit.h:886-893 | so no run is ever misjudged exactly when that product fits |
| UdpWindow.EveryRunWindowSound | bpf/include/rate_limit.h:844-903 | when the product fits for the largest batch of the run: in every multi-CPU run buckets start a window apart, weigh no more than one may take, each is charged at most max(rate, largest batch of the run), and nothing is charged while a block lasts |
| UdpWindow.GlobalRateBound | bpf/include/rate_limit.h:844-903 | under the same condition any span of one window charges at most twice the maximum of rate and largest batch of the run |
| TokenBucket.BatchIsOneByOne | bpf/xdp_firewall.c:396-439 | refilling a batch equals refilling one token at a time, cap included |
| TokenBucket.RunSound | bpf/xdp_firewall.c:396-439 | tokens never exceed the maximum and the refill clock is less than one interval behind |
| TokenBucket.EchoBound | bpf/xdp_firewall.c:396-439 | any stretch of length L passes at most max + ceil(L / ns per token) requests |
| TokenBucket.DroppedExactly | bpf/xdp_firewall.c:414-441 | after every run a request is dropped exactly when, since some earlier request, as many have passed as a full bucket and the whole intervals since then allow |
| TokenBucket.FirstOnesPass | bpf/xdp_firewall.c:414-417 | the bucket starts full: the first max requests pass, however close together |
| TokenBucket.Bucket.RateLimit | bpf/xdp_firewall.c:396-439 | the 64-bit in-place form refines the model and keeps the invariant |
| Flows.SharedPrefix | bpf/include/rate_limit.h:4-58 | two sources share a limiter key exactly when their configured leading bits agree |
| TcpTable.NothingFromNowhere | bpf/include/conntrack.h:38-160 | one step creates an entry only by an admitted SYN, an outbound SYN or a seed, and establishes one only by an ACK, an outbound SYN or a seed |
| TcpTable.EveryEntryHasOrigin | bpf/include/rate_limit.h:727-773 | every entry of every reachable table goes back to such an origin without a gap |
| TcpTable.EveryEstablishedHasCause | bpf/include/conntrack.h:76-128 | established status goes back to an inbound ACK of a half-open entry, an outbound SYN or a seed, without a gap |
| TcpTable.PassNeedsHistory | bpf/include/conntrack.h:38-160 | an inbound segment other than a SYN passes only on an entry with that history; ACK and RST+ACK only within its timeout; otherwise it is a bare FIN |
| TcpVerdicts.PassesExactly | bpf/include/parse.h:19-30 | for every flag byte and table: a segment passes exactly when its byte is not malformed and it is a pure SYN its gates admit, carries ACK with an entry within its timeout, or is a FIN without RST with any entry |
| TcpVerdicts.PassNeedsActivity | bpf/include/conntrack.h:76-128 | a segment with ACK passes only within the timeout of an event of its flow |
| TcpVerdicts.OutboundOpens | tc_flow_track.c:305-320 | in every run, for the TCP timeout after an outbound SYN or a seed, a segment with ACK of that connection passes exactly when no FIN, reset or removal has ended it |
| TcpVerdicts.ActivityKeepsOpen | bpf/include/conntrack.h:113-128 | every later segment of a live connection that passes or goes out renews that for the timeout less the refresh interval |
| TcpVerdicts.HandshakeOpens | bpf/include/conntrack.h:76-128 | after an admitted SYN the client's ACK passes within both timeouts exactly when nothing has ended the connection |
| TcpTable.EgressKeepsKind | tc_flow_track.c:305-320 | outbound refresh preserves the half-open bit and touches no other entry |
| TcpTable.ConnTable.CheckConntrack | bpf/include/conntrack.h:38-160 | RST, ACK and FIN handling on raw words equals the step function, verdict and counter effect included |
| TcpTable.ConnTable.AllowNewSyn | bpf/include/rate_limit.h:727-773 | new-SYN handling on raw words equals the step function |
| TcpTable.ConnTable.FilterSegment | bpf/xdp_firewall.c:16-58 | one whole ingress decision, malformed segments, trust, ACL and whitelist included |
| TcpTable.ConnTable.TrackEgress | tc_flow_track.c:298-320 | outbound TCP tracking on raw words equals the step function |
| ConnCounters.CountersNeverOver | bpf/include/rate_limit.h:423-622 | with refresh >= SYN timeout, no per-source, per-prefix or per-port counter ever exceeds the established entries it covers |
| ConnCounters.CountersExact | bpf/include/rate_limit.h:345-379 | and equals their number as long as no record step found its nonzero counter expired |
| ConnCounters.RefusalIsEarned | bpf/include/rate_limit.h:391-421 | after every run a SYN refused by the connection limits has as many established connections as some configured limit |
| ConnCounters.LimitsMeanConnections | bpf/include/rate_limit.h:667-725 | and it is refused exactly then, as long as no nonzero counter of its three keys has lapsed |
| ConnCounters.KeysMean | bpf/include/rate_limit.h:423-470 | which flows share a counter: one source and port, one prefix and port by its leading bits, one port |
| ConnActivity.LapsesInTime | bpf/include/rate_limit.h:294-315 | a counter has not lapsed within the timeout of its last update, and has one tick and more beyond it |
| ConnActivity.LiveCountersCurrent | bpf/include/rate_limit.h:333-379 | after every ingress run a counter that covers a connection within its timeout has not lapsed |
| ConnActivity.LimitsEnforced | bpf/include/rate_limit.h:667-725 | so a SYN is refused exactly at a limit, as long as its counters were never found lapsed and each covers a connection within its timeout or none |
| ConnCounters.RefreshMustCoverSyn | bpf/include/rate_limit.h:741-768 | with refresh < SYN timeout there is a run in which a counter exceeds its connections |
| ConnDrift.CountersDrift | bpf/include/rate_limit.h:423-622 | over every run that also holds outbound segments, seeds and removals, which leave the counters alone, a counter exceeds its connections by at most the established entries they ended, and unless it lapsed falls short by at most those they began |
| ConnDrift.ResetStaysCounted | tc_flow_track.c:305-320 | a connection reset from inside stays counted: the counter is one and covers none |
| ConnCounters.Counter.UpdateCount | bpf/include/rate_limit.h:333-379 | the update is applied once to what rivals left, or the counter saturates after sixteen lost races |
| TcpGc.OnlyBareFinSees | bpf/include/conntrack.h:38-160 | a segment tells a collected table from an uncollected one exactly when it is a bare FIN for a collected entry |
| TcpGc.GcInvisible | auto_xdp/bpf/maps.py:701-721 | removals at any moments change no verdict of a run of inbound segments without bare FINs, seeds and outbound segments of every kind, as long as each finds its entry absent, or expired and established, older than the TCP timeout, or with TCP timeout <= refresh; without outbound segments other than SYN and RST, absent or expired is enough |
| TcpGc.DeletionUnseen | auto_xdp/bpf/maps.py:716-721 | for every table, a deletion is noticed by no later such run exactly when it is harmless in that sense, with and without outbound segments that refresh entries |
| TcpGc.JudgedThenDeleted | auto_xdp/bpf/maps.py:701-721 | an entry judged harmless to delete is unchanged and still so later if no SYN, seed or outbound segment of its flow came in between |
| TcpGc.BareFinSeesGc | bpf/include/conntrack.h:130-160 | a bare FIN passes on an expired entry unless it was collected |
| TcpGc.FinSeesEveryDeletion | bpf/include/conntrack.h:130-160 | so among runs with bare FINs a deletion stays unseen exactly when there was no entry |
| TcpGc.EgressSeesGc | tc_flow_track.c:305-320 | an outbound segment revives a half-open entry past its SYN timeout but within the TCP timeout unless it was collected |
| TcpGc.LateDeletionSeen | auto_xdp/bpf/maps.py:716-721 | if the peer reconnected in between, the deletion is not harmless and drops the new connection's ACK |
| TcpGc.Collector.GcExpired | auto_xdp/bpf/maps.py:701-721 | undisturbed, it deletes exactly the expired entries; it returns how many keys it deleted, found or not, which is the number of entries gone if none was listed twice |
| UdpTable.ReplyGuarantee | tc_flow_track.c:321-338 | in every run of packets and deletions, an inbound packet within timeout - refresh of the latest outbound one passes on the table alone exactly when every deletion of its entry since then found it absent or expired |
| UdpTable.TrafficKeepsOpen | bpf/xdp_firewall.c:143-153 | a packet that passes, in either direction, keeps the entry for timeout - refresh from then on, whatever it was before |
| UdpTable.LateDeletionSeen | auto_xdp/bpf/maps.py:716-721 | the collector can break it: an entry judged expired, rewritten by an outbound packet and then deleted loses even an immediate reply |
| UdpTable.JudgedThenDeleted | auto_xdp/bpf/maps.py:701-721 | an entry judged expired is still absent or expired when deleted, if no outbound packet came in between |
| UdpTable.GuaranteeIsTight | tc_flow_track.c:327-338 | one nanosecond later it may not |
| UdpTable.PassedRepliesWereAsked | bpf/xdp_firewall.c:138-153 | what the table passes follows an outbound packet of its flow, and the flow was active within the timeout |
| UdpTable.GcInvisible | bpf/xdp_firewall.c:143-153 | deletions at any moments are invisible to every mix of inbound and outbound packets as long as each is harmless: its entry absent, or older than timeout and refresh |
| UdpTable.DeletionUnseen | auto_xdp/bpf/maps.py:716-721 | a deletion is noticed by no later packets exactly when it is harmless in that sense |
| UdpTable.HarmlessWhenExpired | bpf/xdp_firewall.c:143-153 | with timeout >= refresh harmless means: absent or expired |
| UdpTable.GcVisible | tc_flow_track.c:335-337 | with timeout < refresh even the prompt deletion of an expired entry shows, in a run from the empty table |
| UdpTable.ReplyTable.Lookup | bpf/xdp_firewall.c:138-153 | the in-place lookup, refresh and expiry equal the step function |
| UdpTable.ReplyTable.TrackEgress | tc_flow_track.c:327-338 | the in-place recording equals the step function |
| RingMemory.DoubleMapping | pkt_relay.py:315-318 | a plain read of the doubled mapping at a masked position is the wrapping read, for up to one lap |
| RingBuffer.ProduceKeeps | pkt_relay.py:333-349 | reserve, fill, submit and discard keep every unread record's header and payload in the area, and never change a settled record |
| RingDelivery.WrittenExactly | pkt_relay.py:315-349 | reserving, filling and submitting appends the record with exactly its bytes if it fits between producer and consumer, and changes nothing otherwise |
| RingDelivery.SettledExactly | pkt_relay.py:338-345 | submitting and discarding change the status of one outstanding record |
| RingReader.ExactlyOnce | pkt_relay.py:333-349 | under every interleaving the concatenated output is the submitted records of the expected size before the consumer position, in order, once each; that position is a record boundary and never passes the producer |
| RingReader.DrainEnds | pkt_relay.py:333-349 | a drain stops only at the producer position it saw or at a busy record |
| RingDelivery.DrainReaches | pkt_relay.py:333-349 | under every interleaving a drain that ends has reached the producer position of the moment it began, or stands before a busy record |
| RingReader.DrainTerminates | pkt_relay.py:333-349 | every reader step uses up a bound that producers cannot extend |
| RingReader.DeliveredSplit | pkt_relay.py:333-349 | outputs of successive drains concatenate to the output of the whole stretch |
| RingReader.Consumer.Drain | pkt_relay.py:321-349 | with producers at work between any two reads, one drain yields exactly the records it steps over |
| HandlerSwap.Switch.Rollback | auto_xdp/admin_cli.py:441-452 | the entry ends on the old program, or empty if there was none, unless an error is reported or a failed lookup hides a failed deletion |
| HandlerSwap.Switch.Commit | auto_xdp/admin_cli.py:490-508 | how far the switch gets and in which state it stops, for every pattern of faults |
| HandlerSwap.Switch.Recover | auto_xdp/admin_cli.py:513-538 | neither program loses its last pin while the entry may name it; a sound recovery restores entry and pins |
| HandlerSwap.Switch.FileSwap | auto_xdp/admin_cli.py:455-538 | succeeds exactly without faults on an admitted state; the program the entry names is pinned at every step exactly unless a failed deletion is hidden by a failed lookup and the candidate's pin removed; success leaves entry and live pin on the candidate; a sound failure leaves the old pin, no candidate, and the entry as it was or on the old program |
| HandlerSwap.Switch.DirSwap | auto_xdp/admin_cli.py:664-742 | the same for directories, with the same exact condition for staying pinned; an old generation that cannot be removed is retained |
| Blocklist.Normalize | auto_xdp/abuseipdb.py:97-120 | any invalid line rejects the list; otherwise each IPv4 network once |
| Blocklist.CoversExactly | auto_xdp/abuseipdb.py:111-116 | a network covers exactly the addresses that share its leading bits |
| Blocklist.NeverUncovered | auto_xdp/abuseipdb.py:142-152 | an address on both lists is blocked after every forward step |
| Blocklist.RiskMap.Forward | auto_xdp/abuseipdb.py:142-152 | inserts all before it deletes any, stops at the first failure, and every state on the way contains the old or the new list |
| Blocklist.UndoCovers | auto_xdp/abuseipdb.py:153-161 | while a failure is undone without error, an address on both lists stays blocked in every state exactly when an old entry that had not been removed covers it |
| Blocklist.UndoCoversAlways | auto_xdp/abuseipdb.py:125-161 | wherever the forward pass stops, it stays blocked while that is undone: exactly if an entry common to both lists covers it |
| Blocklist.UndoUncovers | auto_xdp/abuseipdb.py:153-161 | two lists of one covering network each: the map is empty in between, against the promise of the docstring |
| Blocklist.GapWhileUndoing | auto_xdp/abuseipdb.py:122-168 | the same as a replacement on a map whose flag update fails |
| Blocklist.RiskMap.Undo | auto_xdp/abuseipdb.py:153-166 | without errors it goes through exactly the states of the undo model and restores list and flag; every error is a fault of the map, never lack of room, and even with errors what was neither added nor removed stays throughout |
| Blocklist.RiskMap.ReplaceAll | auto_xdp/abuseipdb.py:122-168 | success leaves exactly the new list, a failure undone without error exactly the old list and flag, through the states of the undo model; with room it fails only where a fault stops it; forward states contain the old or the new list, undo states the old entries not removed |
| PolicyRows.BaseAtOnce | auto_xdp/bpf/maps.py:1085-1106 | one reconcile makes the first three limits right, even when a view deletes the row midway |
| PolicyRows.Converges | auto_xdp/backends/xdp.py:467-511 | from any row, with a base limit wanted, the second reconcile makes all five limits and both prefixes right and later ones change nothing |
| PolicyRows.OneSettles | auto_xdp/bpf/maps.py:1085-1106 | with a base limit wanted, one reconcile settles a port exactly unless the first or second view leaves all base limits zero and a prefix or port limit was planned as unchanged |
| PolicyRows.OneNeedNotSettle | auto_xdp/bpf/maps.py:1097-1106 | a row and a wish for which one reconcile is not enough |
| PolicyRows.UnwantedRows | auto_xdp/state.py:116-122 | an unwanted port ends without a row exactly when its row did not have all five limits zero |
| PolicyRows.LimitsReached | auto_xdp/bpf/maps.py:1085-1106 | from any row, two or more reconciles reach the wanted limits exactly when a base limit is wanted, or no limit is, or the row had them already and no view writes |
| Reconcile.PlanIsDelta | auto_xdp/state.py:116-172 | the plan made from the cache does, port by port, what the row model says |
| Reconcile.Backend.ApplyDelta | auto_xdp/backends/xdp.py:670-715 | one view's upserts and removals, with failures counted; without failures every port moves as the row model says |
| Reconcile.Backend.FixPrefixes | auto_xdp/bpf/maps.py:1043-1054 | prefixes become the wanted ones, limits are untouched, failures are not counted |
| Reconcile.Backend.Protect | auto_xdp/backends/xdp.py:384-596 | closes ports and installs protection; every failing update is counted, except missed prefixes; with no counted failure the first three limits of every port are the wanted ones |
| Reconcile.Backend.Reconcile | auto_xdp/backends/xdp.py:377-631 | a port opens only if no failure was counted before, and then closed ports are closed and the first three limits of every port are the wanted ones; without failures whitelists and rows are as wanted |
| Reconcile.Backend.Settle | auto_xdp/syncer.py:52-55 | two or more rounds without a reported failure settle the whole backend: ports with a base limit have all limits and prefixes, any port its limits exactly when the row model says, and an unmentioned port no row exactly unless its row had all limits zero |
| StaleRounds.DryRunsDoNotCount | auto_xdp/backends/xdp.py:633-644 | dry runs leave no trace in the counts |
| StaleRounds.CountIsRun | auto_xdp/backends/xdp.py:318-341 | the stored count is the length of the current run of real reconciles that missed the key and did not remove it |
| StaleRounds.RemovalNeedsMisses | auto_xdp/backends/xdp.py:403-416 | a key is removed exactly when the deletion succeeds in a real reconcile that completes the configured number of consecutive misses |
| StaleRounds.Tracker.Reconcile | auto_xdp/backends/xdp.py:633-644 | the in-place form equals the step function |
| MinecraftWire.VarintRoundTrip | handlers/minecraft_handler.c:375-388 | every signed 32-bit value reads back from its encoding, wherever it stands |
| MinecraftWire.LowBits | handlers/minecraft_handler.c:358-373 | cutting a five-byte value to 32 signed bits loses only multiples of 2^32 |
| MinecraftWire.Low13IsMask | handlers/minecraft_handler.c:409-409 | the modelled mask keeps exactly the low 13 bits |
| MinecraftWire.MaskIsNoOp | handlers/minecraft_handler.c:405-419 | the 0x1FFF mask never alters a length that passed validation: every parser answers the same without it |
| MinecraftGrammar.StatusExactly | handlers/minecraft_handler.c:421-436 | a status request is the bytes 1, 0 and nothing else |
| MinecraftGrammar.PingExactly | handlers/minecraft_handler.c:438-456 | a ping is 9, 1 and eight bytes |
| MinecraftGrammar.HandshakeExactly | handlers/minecraft_handler.c:532-585 | the handshake parser accepts exactly handshakes, however their numbers are encoded, and finds version, intention and end |
| MinecraftGrammar.LoginExactly | handlers/minecraft_handler.c:458-530 | the login parser accepts exactly the login packets of the version, to the last byte |
| MinecraftPackets.HandshakeReads | handlers/minecraft_handler.c:532-585 | a serialised handshake reads back with version, intention and extent, exactly unless its length field starts with 0xFE, when it is taken for a legacy ping |
| MinecraftPackets.LoginReads | handlers/minecraft_handler.c:458-530 | every login packet well formed for its version passes |
| MinecraftPackets.HandshakeDoublesAsLogin | handlers/minecraft_handler.c:579-584 | any payload accepted as a handshake, however its varints are encoded, is also a login packet for its version exactly when the version is between 1 and 48 and equals the number of bytes after it |
| MinecraftPackets.HandshakeBytesDouble | handlers/minecraft_handler.c:579-584 | for a serialised handshake: exactly when the version is the size of host field, port and intention |
| Minecraft.Story | handlers/minecraft_handler.c:658-760 | every pending flow has a latest SYN and, as its stage requires, an acknowledgement and a handshake since, all at the first sequence number |
| Minecraft.PromotionHistory | handlers/minecraft_handler.c:673-809 | a promotion follows a SYN, its acknowledgement, a handshake announcing login or (from version 766) transfer, and a well-formed login packet for that version, all at the first byte; the login is in a later segment than the handshake, or starts where the handshake ends, or is the handshake itself in the doubling case |
| Minecraft.PromotesExactly | handlers/minecraft_handler.c:654-801 | after any run a segment is promoted exactly when its flow is pending and in time, it is intact, acknowledging and at the expected byte, and holds a login for the remembered version, or, before any handshake, handshake and login together, and the login limiter agrees |
| MinecraftVerdicts.PassesExactly | handlers/minecraft_handler.c:654-810 | after any run what passes is a SYN, a bare segment past the handshake, or in order and in time a status request or login its limiter grants, or the ping |
| MinecraftVerdicts.PendingExactly | handlers/minecraft_handler.c:654-810 | what becomes of every pending connection: when it is forgotten, and otherwise its stage, expected byte, strikes, version and time |
| MinecraftVerdicts.BlocksExactly | handlers/minecraft_handler.c:314-335 | a source is blocked, for five minutes, exactly for a payload without ACK, the fifth out of order, or a request its limiter refuses |
| MinecraftVerdicts.FifthStrayBlocks | handlers/minecraft_handler.c:735-745 | four payloads out of order are only counted; the fifth forgets the connection and blocks its source |
| MinecraftVerdicts.AgreesExactly | handlers/minecraft_handler.c:228-291 | a limiter agrees exactly when the prefix has no window, one over after 10 or 60 seconds, or one with fewer than 30 or 20 grants |
| MinecraftVerdicts.PrefixesMean | handlers/minecraft_handler.c:228-291 | limiter words are shared by 24 leading bits of an IPv4 source, 64 of an IPv6 source |
| Minecraft.TableIsPromoted | handlers/minecraft_handler.c:337-351 | every table entry was put there by a promotion |
| Minecraft.PromotedIff | handlers/minecraft_handler.c:792-801 | a flow enters the table exactly when the login limiter was asked and agreed |
| Minecraft.PromotionRate | handlers/minecraft_handler.c:228-291 | at most 40 promotions per /24 or /64 in any 60 seconds |
| Minecraft.StatusRate | handlers/minecraft_handler.c:765-777 | at most 60 status requests per /24 or /64 are answered in any 10 seconds |
| MinecraftClients.CoalescedClientPromoted | handlers/minecraft_handler.c:673-801 | a connection whose first payload is any acceptable handshake and complete login is promoted exactly when the login limiter agrees, after any traffic of other flows and any bare acknowledgements in time |
| MinecraftClients.SplitClientPromoted | handlers/minecraft_handler.c:710-801 | a handshake alone in the first segment is dropped and remembered; a login alone in a later segment at the same sequence number, in time, is promoted exactly when the login limiter agrees |
| MinecraftClients.PromotedAtFirstByte | handlers/minecraft_handler.c:710-801 | every promoted segment carries the first sequence number after the latest SYN |
| MinecraftClients.LoginInSequenceStaysOut | handlers/minecraft_handler.c:710-801 | so a login sent in sequence after the bytes of its handshake segment is never promoted |
| MinecraftVerdicts.CoalescedStatusAnswered | handlers/minecraft_handler.c:746-788 | a client whose first payload is a status handshake and the request is answered exactly when the status limiter agrees, and its ping then passes |
| MinecraftVerdicts.SplitStatusAnswered | handlers/minecraft_handler.c:746-788 | the same with the request in a later segment at the same sequence number |
| Minecraft.Handler.Handle | handlers/minecraft_handler.c:654-810 | the in-place handler equals the step function, verdict included |

## Left out

- LRU eviction and map-element lifetime: entries leave a table only by the steps modelled.
- Clock readings that differ between CPUs: requests are ordered by the moment their store takes
  effect, with a nondecreasing clock in that order.
- SCTP tracking, GRE and ESP handlers, fragments and header walks: single checks without state of
  their own.
- Port handlers other than Minecraft: the TCP model assumes none is installed.
- The UDP checks after the table lookup (whitelist, ACL, per-source limits): they decide packets the
  table does not, and appear as "not passed by the table".
- Connection counters under concurrent packets: the whole-run lemmas take packets one at a time;
  `ConnCounters.Counter.UpdateCount` covers a single counter under contention.
- Connection-limit checks inside a run: their outcome is an arbitrary input of each packet, so the
  counter lemmas hold whatever the limits are.
- ConnCounters.CountersExact: assumes the table stays below 2^32 - 1 entries, the value at which a
  counter saturates; the maps are smaller.
- UDP policy rows: their layout in the packet program differs from the one userspace writes, so only
  the TCP rows are modelled.
- Reconcile.Backend.Protect: the maps besides whitelists and TCP rows (trust, ACL, SCTP, runtime
  configuration, tunnels, UDP limits, conntrack seeds) appear only as a number of counted failures.
- Runtime timing fields rewritten by `set_active`, and concurrent writers of the runtime
  configuration: a single writer is assumed.
- Blocklist.RiskMap.ReplaceAll: order of insertion and deletion is arbitrary rather than sorted, and
  when undoing itself reports errors only the entries never touched are followed.
- UdpOverflow.ExactIffFits: windows of 0x7FFF_0000_0000_0000 ns (292 years) and more are not covered,
  since a clock below 2^63 need not pass them.
- Minecraft.Handler.Handle: takes the limiters' words as uncontended; their retry loop under
  contention is that of `RateLimiter.SharedCell.Check`, with 64 attempts.
- Ring positions are unbounded integers; the 64-bit counters of the mapped pages are assumed not to
  wrap.
- The kernel's side of the ring buffer is not part of the repository; reserve, submit and discard
  follow its documented protocol, with header words written atomically.
- HandlerSwap.Switch.DirSwap: removing a directory tree either removes it or leaves it, never half
  of it.
- nftables backend, configuration and policy resolution, discovery, terminal interface, sockets and
  logging.
