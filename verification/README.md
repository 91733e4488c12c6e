# natto64: a verified model of the NAT64 dataplane

natto64 translates TCP and UDP between IPv6 clients and IPv4 servers inside the kernel: two
traffic-control classifiers rewrite packets, two hash tables hold the sessions, a per-CPU
allocator hands out external ports, and a timer per session expires it. This project models
those parts in Dafny and proves what they keep. It needs nothing but Dafny:
`dafny verify dfyconfig.toml`. All results are proofs about the model; nothing was executed.

## The modules

- `Words`, `OnesComplement`: fixed-width values, the two checksum folds, and the
  characterisation the rest rests on: the fold of a sum is 0 only for 0 and otherwise the
  representative of the sum modulo 65535 in 1..65535.
- `Checksum`, `Incremental`, `Headers`: the checksum and header library, imperative as in the
  source, each method proved against one flat sum or one byte layout, and the incremental
  update against full recomputation.
- `Abi`, `Fnv`, `Pool`: shared types, the hash, policy validation and its installation, pool
  selection and filter.
- `PortAllocator`: the probe loop over cursor, cooldown ring and `NAT`, as classes that change
  in place, proved against a pure step function; the theorems are about sequences of calls.
- `NatTables`: what every kind of step does to `FWD_NAT` and `NAT`.
- `StrictRuns`: runs of atomic steps. The tables stay mutually inverse exactly in the strict
  runs; the timing theorems hold there. `LooseRuns`: evictions, faults and interleaved packets;
  only traceability survives.
- `Counters`: conservation over the mapping counters.
- `Packets`, `Translation`, `Dataplane`: packets as byte strings, the checksum deltas, and both
  classifiers and the timer as a class whose methods state the whole new tables, counters,
  allocator and frame.
- `FrameRuns`: runs of whole frames and callbacks refine the runs of atomic steps, so the table
  and timing theorems hold of frames.
- `WireFormat`: which frames the classifiers take, what the frames they leave look like and
  where they go, byte by byte and in the numbers of the protocols.
- `RoundTrip`: a packet out and the reply back, and where the code stops short of that.
- `Differences`: concrete frames and configurations for each difference listed below.

The pure functions of `NatTables` are the specification; `Dataplane` shows that the imperative
code computes them (`FlowIsForwardStep`, `ReplyResult`, `SessionTimerCallback`), and the two run
modules quantify over all sequences of them.

## Where the code and its documentation differ

The model follows the code. Each item has its exact condition in one lemma, named first, and
inputs that show it in `Differences`.

- A packet that creates a mapping but ends before its checksum field (a TCP frame of 58 to 71
  bytes, a UDP frame of 60 or 61) never writes `NAT`. The tables are then no longer mutually
  inverse, and a second such client may be given the same external tuple
  (`Dataplane.ClassifierKeepsInverse`, `StrictRuns.InverseThroughoutIffStrict`;
  `Differences.TruncatedFramesShareTuple`). They are inverse again at exactly those states in
  which every live flow has completed a packet and nobody has taken its reverse entry since:
  a flow that was cut short has expired, or completed with its tuple to itself
  (`StrictRuns.InverseIffAllOwn`).
- The repository's README (line 53) says packets that cannot be translated pass unchanged. A
  packet is as it came exactly when it left before the protocol change took effect: TCP is
  stripped before its ports are read and its mapping looked up, UDP after the mapping, and a
  reply grows after the lookup (`Dataplane.UnchangedUnlessStripped`,
  `Dataplane.ReplyUnchangedIff`; `Differences.OnePortTcpPassedStripped`,
  `Differences.ShortUdpPassedStripped`).
- The same README (line 56) says UDP replies with a zero checksum are not translated. The test
  reads the grown frame at the old offset, where the checksum never is: it sees two bytes of
  the client's address with up to twelve bytes of IPv4 options, the client's port with sixteen,
  a word of the options beyond (`RoundTrip.ZeroTestReadsClientAddress`;
  `Differences.ChecksumDoesNotDecide`).
- Both UDP paths close with a replacement meant to mark a zero checksum. Under the assumption
  below a field that is already zero is left alone, so a datagram that verifies, did not arrive
  with 0xFFFF, and whose right checksum is now 0xFFFF leaves with none, over IPv6 as over IPv4
  (`RoundTrip.ForwardUdpChecksum`, `RoundTrip.ReplyUdpChecksum`;
  `Differences.DatagramLosesItsChecksum`).
- Replies get a source under the well-known prefix even if another prefix is configured, so
  the round trip restores the remote's IPv6 address exactly under the well-known prefix
  (`RoundTrip.PacketRoundTrip`; `Differences.OtherPrefixNotRestored`).
- The reverse path accepts IPv4 options but rewrites as if there were none, so the client reads
  the first option bytes as the source port: it sees its packet mirrored exactly when those
  happen to be the server's port (`RoundTrip.MirroredIffPortsLead`;
  `Differences.OptionsReplyNotMirrored`).
- `validate` accepts a one-port range, from which no port is ever handed out
  (`PortAllocator.AcceptedRangeCoverage`; `Differences.OnePortRangeAccepted`).

## Assumptions about the kernel

`bpf_csum_diff` and `l4_csum_replace` are not modelled but assumed. The first returns some
representative, modulo 65535, of the difference of the two native-word sums. The second changes
only the two bytes it is given, by equation 3 of RFC 1624: the residue is fixed, and the field
is 0xFFFF only if it was before; with the mangled-zero mark a zero field is left alone and no
other field becomes zero. These are the contracts of `Packets.CsumDiff` and
`Packets.Skb.L4CsumReplace`; their bodies only show that such values exist. `change_proto`
removes or inserts twenty bytes after the Ethernet header. Clock readings, random generations,
helper failures, the content of the inserted bytes and the redirect's result are parameters.
BPF maps behave as maps. A deadline counts from the clock its step read; that the kernel starts
the timer a little later is part of the latency that the timing theorems allow.

## Model

| member | source | states |
|---|---|---|
| OnesComplement.FoldResidue | natto64-xlat/src/checksum.rs:5-11 | the fold is congruent to the sum modulo 65535 and is 0 exactly for the sum 0 |
| OnesComplement.FoldUnique | natto64-xlat/src/checksum.rs:5-11 | those two facts determine the fold |
| OnesComplement.FoldHomomorphism | natto64-xlat/src/checksum.rs:55-57 | a partial fold may be taken anywhere inside a longer sum |
| OnesComplement.ComplementCloses | natto64-xlat/src/checksum.rs:28-42 | adding the complement of a folded sum makes it fold to 0xFFFF |
| OnesComplement.FoldSum | natto64-xlat/src/checksum.rs:5-11 | the while loop terminates with the fold of its argument |
| OnesComplement.FoldU32Fixed | natto64-ebpf/src/lib.rs:1328-1334 | the straight-line fold equals the loop fold on every u32 |
| OnesComplement.WrapKeepsFoldIff | natto64-xlat/src/checksum.rs:14-26 | a wrapping 32-bit accumulator folds right exactly when the lost carries are a multiple of 65535 (and no nonzero sum wraps to 0) |
| OnesComplement.WordSumConcat | natto64-xlat/src/checksum.rs:14-26 | the word sum splits at every even offset |
| OnesComplement.WordSumSet | natto64-xlat/src/checksum.rs:28-42 | replacing one aligned word changes the sum by the difference of the words |
| OnesComplement.ByteOrder | natto64-ebpf/src/lib.rs:77-107 | summing native words multiplies the residue by 256 on a little-endian host (section 2 of RFC 1071) |
| OnesComplement.ScaleCancels | natto64-ebpf/src/lib.rs:1469-1481 | that factor cancels, so residues compare alike on both hosts |
| Words.Be32BytesInverse | natto64-ebpf/src/ipv6.rs:53-70 | an address is determined by its value: encoding after decoding gives the bytes back |
| Words.Be32Digits | natto64-xlat/src/wire.rs:4-22 | the first byte is the most significant, in plain digits |
| Checksum.Checksum16WithSeed | natto64-xlat/src/checksum.rs:14-26 | the chunk loop gives the fold of seed plus big-endian word sum, wrapped at 32 bits, for slices of every length, odd ones included |
| Checksum.Checksum16 | natto64-xlat/src/checksum.rs:33-35 | up to 131074 bytes this is the unbounded one's-complement sum |
| Checksum.AccumulatorBoundIsTight | natto64-xlat/src/checksum.rs:14-26 | an all-0xFF slice below 8 GiB is summed right exactly up to 131074 bytes |
| Checksum.AllOnesFold | natto64-xlat/src/checksum.rs:14-26 | for all-0xFF slices of any length, the exact condition under which the result is right |
| Checksum.Ipv4HeaderChecksum20b | natto64-xlat/src/checksum.rs:40-42 | complement of the flat sum of twenty bytes |
| Checksum.BuildIpv4PseudoHeaderBytes | natto64-abi/src/lib.rs:599-611 | byte layout of the IPv4 pseudo-header |
| Checksum.BuildIpv6PseudoHeaderBytes | natto64-abi/src/lib.rs:615-627 | byte layout of the IPv6 pseudo-header |
| Checksum.Ipv4PseudoBytes | natto64-abi/src/lib.rs:599-611 | source, destination, zero, protocol and length at their offsets |
| Checksum.Ipv6PseudoBytes | natto64-abi/src/lib.rs:615-627 | source, destination, 32-bit length and protocol at their offsets |
| Checksum.ZeroFieldBytes | natto64-xlat/src/checksum.rs:60-71 | the bytes of the checksum field, each if present, and no others are read as zero |
| Checksum.AddSegment | natto64-xlat/src/checksum.rs:60-71 | the segment loop sums the segment with its checksum field read as zero, odd lengths included |
| Checksum.SeededEqualsFlat | natto64-xlat/src/checksum.rs:49-75 | seeding with partial folds gives the fold of one flat sum over pseudo-header and segment |
| Checksum.TcpChecksumIpv4 | natto64-xlat/src/checksum.rs:49-75 | never 0; up to 65535 bytes, the complement of one flat sum over pseudo-header bytes and zeroed segment, zero mapped to 0xFFFF |
| Checksum.TcpChecksumIpv6 | natto64-xlat/src/checksum.rs:82-107 | the same over IPv6 |
| Checksum.UdpChecksumIpv4 | natto64-xlat/src/checksum.rs:114-140 | the same for UDP, field at offset 6 |
| Checksum.UdpChecksumIpv6 | natto64-xlat/src/checksum.rs:147-172 | the same for UDP over IPv6 |
| Checksum.VerifiesIff | natto64-xlat/src/checksum.rs:28-35 | a segment verifies exactly when its field holds the computed checksum (or 0 where that is 0xFFFF) |
| Checksum.InsertThenVerify | natto64-xlat/src/checksum.rs:28-172 | storing the checksum over any old field bytes makes the segment verify; the value is never 0 |
| Incremental.AddRemoveWords | natto64-xlat/src/checksum.rs:568-590 | the two loops add complemented old words and new words, for any lengths |
| Incremental.Nat64IncrementalTcpChecksumV6ToV4 | natto64-xlat/src/checksum.rs:592-610 | the update computes the checksum of the incremental sum, exactly so for pseudo-headers of up to 40 bytes |
| Incremental.CheckOfResidue | natto64-xlat/src/checksum.rs:608-609 | two sums give the same stored checksum exactly when they are congruent: the two zeros agree |
| Incremental.IncrementalMatchesFull | natto64-xlat/src/checksum.rs:592-674 | for every segment with its checksum field, up to 65535 bytes, the incremental update gives the full recomputation over the rewritten segment exactly when the old checksum was right |
| Headers.BuildIpv4HeaderTcp | natto64-xlat/src/headers.rs:6-29 | field layout, and the header verifies to 0xFFFF |
| Headers.BuildIpv4HeaderUdp | natto64-xlat/src/headers.rs:31-53 | the same for UDP |
| Headers.BuildIpv6Header | natto64-xlat/src/headers.rs:56-97 | field layout of the IPv6 header, either protocol |
| Headers.Ipv4HeaderVerifies | natto64-xlat/src/headers.rs:25-28 | a receiver's sum over the complete header is 0xFFFF for all field values |
| Headers.Ipv4HeaderBytes | natto64-xlat/src/headers.rs:12-29 | version, length, identification, fragment word, time to live, protocol and addresses at their offsets, and a sum of 0xFFFF |
| Headers.Ipv6HeaderBytes | natto64-xlat/src/headers.rs:62-73 | version, payload length, next header, hop limit and addresses at their offsets |
| Headers.WireIpv4Header | natto64-ebpf/src/lib.rs:1293-1326 | the dataplane's header is byte-identical to the reference builder's with TTL 64 and identification 0, or an error when the length overflows |
| Headers.WireChecksum | natto64-ebpf/src/lib.rs:1300-1315 | the checksum summed from fields equals the complemented flat sum of the header bytes |
| Abi.SourceUndoesEmbedding | natto64-ebpf/src/lib.rs:803-823 | synthesising a reply source from the embedded address gives the address back exactly under the well-known prefix |
| Fnv.XorBits | natto64-abi/src/lib.rs:526-530 | bit by bit, the exclusive or of hash and byte |
| Fnv.BitsDetermine | natto64-abi/src/lib.rs:526-530 | bits determine the number |
| Fnv.HashRoundIs | natto64-abi/src/lib.rs:526-530 | a round is the product with 16777619 modulo 2^32 |
| Fnv.HashIs | natto64-abi/src/lib.rs:526-530 | the hash starts at 2166136261 and takes one round per byte, in order |
| Fnv.NeighboursHashApart | natto64-abi/src/lib.rs:526-530 | clients that differ in their last byte alone have different hashes |
| Fnv.KnownHash | natto64-abi/src/lib.rs:526-530 | fd00::2 hashes to 0x95025e5e |
| Pool.ValidateDecides | natto64/src/lib.rs:65-88 | exactly which policies are accepted and which error each other one gets |
| Pool.ToDataplane | natto64/src/lib.rs:90-118 | the slots hold the pool in order and zeros behind it, every other field is carried over |
| Pool.TimeoutRounding | natto64/src/lib.rs:77-103 | an accepted timeout never becomes the 0 that disables expiry, is never shortened below the 32-bit limit, grows by less than a second, and is capped there |
| Pool.SelectV4FromPool | natto64-abi/src/lib.rs:521-534 | selection by hash of the client, or none for an unusable pool length |
| Pool.SelectV4FromPoolEbpf | natto64-ebpf/src/lib.rs:1547-1601 | the unrolled selection equals the shared one for all clients and configurations |
| Pool.SelectedIsRemainder | natto64-abi/src/lib.rs:532-533 | the slot is the hash modulo the pool length, for one to sixteen addresses |
| Pool.InFirstIsMembership | natto64-ebpf/src/lib.rs:1604-1763 | the sixteen unrolled arms are membership in the active slots |
| Pool.SelectionPassesFilter | natto64-ebpf/src/lib.rs:886 | for every accepted policy, selection succeeds with a configured address and passes the reply filter, which passes nothing else |
| Pool.Nat64.Configure | natto64/src/lib.rs:157-164 | stores only accepted policies and only while detached; the errors otherwise |
| Pool.Nat64.Attach | natto64/src/lib.rs:174-203 | the first failing host step is the error, in the order of the calls; what reaches the configuration map comes from an accepted policy and is written exactly when both interfaces and the map are there, whatever fails later |
| Pool.HostFailureIsFirst | natto64/src/lib.rs:179-200 | the order in which the host's steps can fail |
| PortAllocator.CooldownRing.Contains | natto64-ebpf/src/lib.rs:1766-1831 | the 64 unrolled comparisons are membership in the ring |
| PortAllocator.CooldownRing.Push | natto64-ebpf/src/lib.rs:1834-1904 | the 64 arms overwrite the slot of the wrapping index, which then advances |
| PortAllocator.Allocator.ProbeOnce | natto64-ebpf/src/lib.rs:1918-1970 | one turn: the next cursor's candidate is taken exactly when it is free |
| PortAllocator.Allocator.AllocPort | natto64-ebpf/src/lib.rs:1907-1980 | the loop computes the specified call on cursor, ring and `NAT`, refusing without a cursor map |
| PortAllocator.AllocGivesFreePort | natto64-ebpf/src/lib.rs:1907-1971 | a port handed out is in range, absent from `NAT` and not cooling, and only then is the ring pushed |
| PortAllocator.CallTakesFirstFree | natto64-ebpf/src/lib.rs:1912-1979 | a call hands out the first free of its sixteen candidates and leaves the cursor there, or moves it by sixteen |
| PortAllocator.NthCandidateIs | natto64-ebpf/src/lib.rs:1923-1924 | a candidate is port_min plus the wrapped cursor modulo the span |
| PortAllocator.TakenIsNatEntry | natto64-ebpf/src/lib.rs:1944-1950 | a port is taken exactly when `NAT` has its address, port and protocol |
| PortAllocator.PushWritesOneSlot | natto64-ebpf/src/lib.rs:1834-1904 | a push writes slot idx mod 64 and no other, and idx wraps at 2^32 |
| PortAllocator.WindowOf65Distinct | natto64-ebpf/src/lib.rs:1766-1971 | any 65 consecutive ports of one CPU are pairwise distinct, across the index wrap, for any `NAT` contents in between |
| PortAllocator.SmallRangeBound | natto64-ebpf/src/lib.rs:1834-1942 | with a span of at most 64 one CPU hands out at most `span` ports in its lifetime |
| PortAllocator.ExhaustedForever | natto64-ebpf/src/lib.rs:1933-1942 | once every port in range is cooling, no later call succeeds |
| PortAllocator.FailingCallsCover | natto64-ebpf/src/lib.rs:1918-1931 | n failing calls find all their 16n consecutive candidates occupied |
| PortAllocator.CursorReaches | natto64-ebpf/src/lib.rs:1912-1925 | every port in range is a candidate within 2*span-1 steps, within span when the cursor does not wrap |
| PortAllocator.AllocatorCoverage | natto64-ebpf/src/lib.rs:1912-1979 | with `NAT` unchanged, one of the next ceil((2*span-1)/16) calls succeeds exactly when some port in range is free; ceil(span/16) calls when the cursor does not wrap |
| PortAllocator.AcceptedRangeCoverage | natto64/src/lib.rs:75-80 | for every range a policy may configure, one of the next ceil((2*span-1)/16) calls succeeds exactly when the range has two ports or more and one is free |
| PortAllocator.RefusedForever | natto64-ebpf/src/lib.rs:1908-1913 | a one-port range or a missing cursor map refuses every call of any sequence |
| PortAllocator.OnePortRangeNeverAllocates | natto64-ebpf/src/lib.rs:1908-1910 | a one-port range yields nothing however often it is asked, and changes nothing |
| NatTables.NoneChangesNothing | natto64-ebpf/src/lib.rs:292-346 | a request returns nothing exactly when it is not granted, and then left both tables as they were; granted, it maps this flow as returned and no other |
| NatTables.MappingIsStable | natto64-ebpf/src/lib.rs:299-314 | a mapping once returned is returned to every later request, whatever allocator, clock and faults do |
| NatTables.RequestWrites | natto64-ebpf/src/lib.rs:299-345 | what a request writes: the time on a hit; address, port, generation and deadline of a new mapping; nothing if refused |
| NatTables.CompletionWrites | natto64-ebpf/src/lib.rs:579-590 | the reverse entry of a completed packet, and no other |
| NatTables.ReplyWrites | natto64-ebpf/src/lib.rs:933-955 | an accepted reply, from the recorded address and port, notes the time and nothing else |
| NatTables.ActivityIsLatestOfBoth | natto64-ebpf/src/lib.rs:214-222 | both directions count as activity, a reverse entry only of the mapping's generation |
| NatTables.FirstHalfDecides | natto64-ebpf/src/lib.rs:223-247 | what the callback does for every activity time L and clock: wait for L + timeout, wait 10 ms to confirm, or go on |
| NatTables.SecondHalfDecides | natto64-ebpf/src/lib.rs:249-269 | the second read: removal exactly when L is still the confirmed time and a timeout old, with the entry of the same generation; otherwise a void confirmation and a new deadline |
| NatTables.DisabledTimerDoesNothing | natto64-ebpf/src/lib.rs:210-213 | without a timeout the callback changes nothing |
| NatTables.InverseIffServed | natto64-ebpf/src/lib.rs:579-590 | where reverse entries are backed by live flows, the tables are inverse exactly when every flow has its own reverse entry |
| NatTables.NoSharedTuple | natto64-ebpf/src/lib.rs:1944-1950 | in inverse tables no two flows of one protocol share an external tuple |
| NatTables.ForwardKeepsInverse | natto64-ebpf/src/lib.rs:292-346 | a forward packet keeps the tables inverse exactly when it does not create a mapping and stop before `NAT` |
| NatTables.ReverseKeepsInverse | natto64-ebpf/src/lib.rs:933-955 | a reverse packet keeps them inverse |
| NatTables.TimerKeepsInverse | natto64-ebpf/src/lib.rs:200-270 | so does the callback: both entries go, or neither, and never another flow's |
| StrictRuns.StepKeepsInverse | natto64-ebpf/src/lib.rs:200-346 | a step from inverse tables keeps them so exactly when it does not cut a creation short |
| StrictRuns.TablesStayInverse | natto64-ebpf/src/lib.rs:292-602 | in every strict run each table is the inverse of the other at every state |
| StrictRuns.InverseThroughoutIffStrict | natto64-ebpf/src/lib.rs:477-602 | a run keeps the tables inverse throughout exactly when no creation in it is cut short |
| StrictRuns.BackedThroughout | natto64-ebpf/src/lib.rs:200-602 | in every run, cut-short creations or not, each reverse entry belongs to a live flow on that tuple with the same generation |
| StrictRuns.ServedStep | natto64-ebpf/src/lib.rs:200-602 | what one step does to a flow's own reverse entry |
| StrictRuns.InverseIffAllOwn | natto64-ebpf/src/lib.rs:200-602 | in every run, the tables are inverse at a state exactly when every live flow has completed a packet and no other flow has taken its entry since |
| StrictRuns.SessionStep | natto64-ebpf/src/lib.rs:299-313 | packets of a flow move its activity time, all other steps leave its entry and activity time alone |
| StrictRuns.CallbackStep | natto64-ebpf/src/lib.rs:224-268 | a callback removes its session inside the promised interval or leaves it pending with a right deadline |
| StrictRuns.LatestIsHistory | natto64-ebpf/src/lib.rs:214-222 | the activity time the callback reads is the time of the last validated packet in the run |
| StrictRuns.ExpiryWindow | natto64-ebpf/src/lib.rs:200-289 | a session last active at L goes no sooner than L + timeout + 10 ms, in nanoseconds, and no later than that plus twice the latency, and only by its own callback |
| StrictRuns.NeverOverdue | natto64-ebpf/src/lib.rs:224-247 | no step of a run finds a session live after that interval |
| StrictRuns.BusyFlowKeepsMapping | natto64-ebpf/src/lib.rs:299-313 | a flow whose gaps are shorter than the timeout keeps address, port and generation, however other steps interleave |
| FrameRuns.FrameIsStep | natto64-ebpf/src/lib.rs:200-1206 | one frame or callback, as the classifiers' contracts state it, is one session step, cut short exactly when it creates a mapping without its reverse entry |
| FrameRuns.FramesRefineSteps | natto64-ebpf/src/lib.rs:200-1206 | every run of frames is a run of session steps through the same tables |
| FrameRuns.FramesKeepTablesInverseIff | natto64-ebpf/src/lib.rs:376-1206 | over any run of frames the tables stay mutually inverse exactly when no frame creates a mapping and fails to complete |
| FrameRuns.FramesExpireInWindow | natto64-ebpf/src/lib.rs:200-289 | in such runs of frames a session expires only by its callback, inside the promised interval |
| FrameRuns.FramesKeepBusyMapping | natto64-ebpf/src/lib.rs:299-313 | and a busy flow keeps its mapping |
| FrameRuns.OwnFrames | natto64-ebpf/src/lib.rs:299-313 | which frames count as a flow's own activity |
| LooseRuns.StepKeepsTraced | natto64-ebpf/src/lib.rs:579-590 | every loose step keeps reverse entries, packets in flight and deliveries traceable |
| LooseRuns.RepliesTraceable | natto64-ebpf/src/lib.rs:933-952 | in every loose run, a packet rewritten towards client c:p from r:q via e was preceded by a packet of the same protocol from c:p to r:q translated to source e |
| LooseRuns.SecondHalfRemovesIff | natto64-ebpf/src/lib.rs:249-268 | in every loose run a second half removes its session exactly when the activity time is the confirmed one and a timeout old |
| LooseRuns.SecondHalfSparesRefreshed | natto64-ebpf/src/lib.rs:240-263 | a session refreshed by either direction since the first half is not removed, unless something took the refresh back |
| LooseRuns.ForwardIsThreeSteps | natto64-ebpf/src/lib.rs:508-590 | an uninterrupted forward packet is three loose steps, so strict steps are loose ones |
| LooseRuns.ReplyIsTwoSteps | natto64-ebpf/src/lib.rs:1078-1101 | the same for a reply |
| Counters.CountersAreTotals | natto64-ebpf/src/lib.rs:309-344 | after any run each counter is the saturated number of the events it stands for |
| Counters.Conservation | natto64-ebpf/src/lib.rs:309-344 | below saturation, misses = allocations ok + err, allocations ok = inserts ok + err, hits = refreshes, exhausted <= allocation errors |
| Packets.LoadAddr6IsSlice | natto64-ebpf/src/ipv6.rs:53-70 | four big-endian word reads give the sixteen bytes back |
| Packets.ParseReadsFields | natto64-ebpf/src/ipv6.rs:74-104 | the parser succeeds exactly on a complete base header and returns its fields |
| Packets.CsumDiff | natto64-ebpf/src/lib.rs:1420-1438 | assumed: a residue of the difference of the native sums |
| Packets.Skb.L4CsumReplace | natto64-ebpf/src/lib.rs:1466-1498 | assumed: equation 3 of RFC 1624 with its zero, with and without the mangled-zero mark, two bytes changed |
| Packets.Skb.ReplacePort | natto64-ebpf/src/lib.rs:1475-1481 | ports handed over as native words in wire order update the big-endian field as the ports themselves would |
| Packets.Skb.ReplacePseudo | natto64-ebpf/src/lib.rs:1462-1467 | the native difference of the pseudo-headers updates the big-endian field by their big-endian difference |
| Packets.LiftResidue | natto64-ebpf/src/lib.rs:1448-1505 | a congruence of native words is one of big-endian words |
| Packets.LiftUpdate | natto64-ebpf/src/lib.rs:1448-1505 | an update of native words, marked or not, is the same update of the big-endian numbers |
| Translation.ApplyDelta | natto64-ebpf/src/lib.rs:1448-1544 | what every exit leaves in the field: untouched, the pseudo-header's change, or the whole change, 0xFFFF only if it was; nothing else is touched |
| Translation.MarkStepIsIdentity | natto64-ebpf/src/lib.rs:1491-1498 | the closing marked replacement changes no field |
| Translation.DeltaStores | natto64-ebpf/src/lib.rs:1448-1544 | a segment verified before exactly when the field then holds the full recomputation's checksum or 0 for 0xFFFF; arriving with anything but 0xFFFF, it holds exactly 0 for 0xFFFF |
| Translation.RewriteKeepsVerdict | natto64-ebpf/src/lib.rs:1448-1544 | a rewritten segment verifies exactly when the original did |
| Translation.RewriteToIpv4 | natto64-ebpf/src/lib.rs:528-577 | header and port of the stripped frame on every exit, and the checksum field as far as the delta got; succeeds exactly when long enough and without fault |
| Translation.WriteIpv6AndPort | natto64-ebpf/src/lib.rs:982-1013 | IPv6 header and destination port of the grown frame, everything else kept |
| Dataplane.Dataplane.LookupOrCreateMapping | natto64-ebpf/src/lib.rs:292-346 | whole new tables, allocator and counters of a mapping request; a new port is collision-checked |
| Dataplane.Dataplane.TryForward | natto64-ebpf/src/lib.rs:376-791 | the whole effect of a forward packet on tables, frame, allocator and counters, with its verdict, branch by branch |
| Dataplane.Dataplane.TryReverse | natto64-ebpf/src/lib.rs:826-1206 | the whole effect of a reverse packet on `NAT` and frame, with its verdict |
| Dataplane.Dataplane.SessionTimerCallback | natto64-ebpf/src/lib.rs:200-270 | the callback is the timer step of the session protocol |
| Dataplane.RewriteToIpv6 | natto64-ebpf/src/lib.rs:959-1049 | a validated reply arrives exactly under the stated condition, and then as the stated frame; every other exit leaves the stated frame too |
| Dataplane.FlowIsForwardStep | natto64-ebpf/src/lib.rs:508-602 | on the tables, the classifier is the forward step that the run theorems quantify over |
| Dataplane.ClassifierKeepsInverse | natto64-ebpf/src/lib.rs:508-602 | a packet that reaches the lookup keeps the tables inverse exactly when its flow is mapped, is not granted a mapping, or is long enough for its checksum field and meets no fault |
| Dataplane.UnchangedUnlessStripped | natto64-ebpf/src/lib.rs:376-791 | a forward packet is as it came exactly when it left before the protocol change took effect; what is not redirected is passed on |
| Dataplane.ReplyUnchangedIff | natto64-ebpf/src/lib.rs:826-1206 | a reverse packet is as it came exactly when it was no reply of a live session or the protocol change failed |
| WireFormat.ForwardFlowIff | natto64-ebpf/src/lib.rs:383-526 | exactly which frames are looked up as forward packets, over bytes, prefix, pool and lengths |
| WireFormat.ForwardFlowFields | natto64-ebpf/src/lib.rs:455-507 | their five-tuple, selected address and length |
| WireFormat.TruncatedTcpIff | natto64-ebpf/src/lib.rs:459-503 | exactly which TCP frames are stripped before they prove too short |
| WireFormat.ReplyFlowIff | natto64-ebpf/src/lib.rs:832-1075 | exactly which frames are looked up as replies, for every header length |
| WireFormat.ReplyFlowFieldsOf | natto64-ebpf/src/lib.rs:917-1078 | the tuple, sender and length of a reply |
| WireFormat.ForwardHeaderBytes | natto64-ebpf/src/lib.rs:1293-1325 | the IPv4 header of a translated frame, field by field |
| WireFormat.ReplyHeaderBytes | natto64-ebpf/src/lib.rs:2185-2202 | the IPv6 header of a delivered reply, field by field, source under 64:ff9b::/96 |
| WireFormat.ForwardFate | natto64-ebpf/src/lib.rs:376-791 | a packet is translated exactly when it belongs to a flow, is granted its mapping, holds its checksum field and no helper fails; then it goes to the uplink, dropped only without one; otherwise it is passed on |
| WireFormat.ReplyFate | natto64-ebpf/src/lib.rs:826-1206 | a reply is delivered exactly when its entry names its sender, it holds its checksum field, no helper fails and the tested UDP word is not zero; then it goes to the bridge |
| WireFormat.UnfinishedFrame | natto64-ebpf/src/lib.rs:477-526 | a changed frame without its header lost the twenty bytes behind the Ethernet header and nothing else |
| WireFormat.StoppedTransportBytes | natto64-ebpf/src/lib.rs:528-577 | a stopped packet has its external port and otherwise its transport bytes, checksum apart |
| WireFormat.StoppedChecksum | natto64-ebpf/src/lib.rs:1462-1483 | the checksum a stopped packet is left with, by the helper that failed |
| WireFormat.AbandonedReplyBytes | natto64-ebpf/src/lib.rs:970-1049 | an abandoned reply has its IPv6 header and the client's port and otherwise its bytes, checksum apart |
| WireFormat.LookupBumps | natto64-ebpf/src/lib.rs:309-344 | which counters each lookup bumps |
| WireFormat.LookupAllocates | natto64-ebpf/src/lib.rs:299-327 | a hit costs no port; a miss asks the allocator once, for the configured range, selected address and protocol |
| WireFormat.NoFlowNoLookup | natto64-ebpf/src/lib.rs:376-507 | a packet without a flow costs neither a port nor a count and leaves the tables alone |
| Dataplane.CountersCountRequests | natto64-ebpf/src/lib.rs:309-344 | over any sequence of forward packets the counters are those of its mapping requests |
| Dataplane.ForwardPacketsConserve | natto64-ebpf/src/lib.rs:309-344 | over any sequence of forward packets, below saturation, the balance equations hold |
| RoundTrip.OutgoingEnds | natto64-ebpf/src/lib.rs:528-551 | a translated frame shows the external address and port and the remote's, at the offsets the reverse path reads |
| RoundTrip.ReplyNamesMapping | natto64-ebpf/src/lib.rs:923-944 | a reply with addresses and ports swapped is looked up under the mapping's tuple, from the flow's remote |
| RoundTrip.AnswerReachesLookup | natto64-ebpf/src/lib.rs:841-921 | an answer to a translated packet reaches the lookup exactly when it is IPv4, unfragmented, of consistent length and passes the pool filter |
| RoundTrip.ReplyNeverPassed | natto64-ebpf/src/lib.rs:933-952 | while the entry lives, that reply is accepted |
| RoundTrip.PacketRoundTrip | natto64-ebpf/src/lib.rs:982-1034 | delivered, it is the client's packet mirrored: client as destination, ports swapped, and as source the address the client had sent to exactly when that is under the well-known prefix |
| RoundTrip.MirroredIffPortsLead | natto64-ebpf/src/lib.rs:982-1013 | for every header length, a delivered reply is the client's packet mirrored exactly when the word behind the first twenty header bytes is the server's port |
| RoundTrip.MappedFlowHasEntry | natto64-ebpf/src/lib.rs:579-590 | in inverse tables every mapped flow has such a live entry |
| WireFormat.ForwardTransportBytes | natto64-ebpf/src/lib.rs:545-577 | a translated frame has the external port, and every other transport byte as sent but for bytes 16 and 17 of TCP, 6 and 7 of UDP |
| WireFormat.ReplyTransportBytes | natto64-ebpf/src/lib.rs:1003-1034 | a delivered reply has the client's port, and every other transport byte as sent but for those |
| RoundTrip.ForwardKeepsVerdict | natto64-ebpf/src/lib.rs:528-577 | the translated frame's IPv4 header verifies, its segment exactly when the client's did |
| RoundTrip.ReplyKeepsVerdict | natto64-ebpf/src/lib.rs:982-1034 | the same for a delivered reply without IPv4 options |
| RoundTrip.ForwardUdpChecksum | natto64-ebpf/src/lib.rs:733-748 | a UDP datagram that verified and did not arrive with 0xFFFF leaves with the right checksum, or with none where that is 0xFFFF |
| RoundTrip.ReplyUdpChecksum | natto64-ebpf/src/lib.rs:1176-1188 | the same for a delivered UDP reply without options, although IPv6 forbids none |
| WireFormat.ForwardTcpChecksum | natto64-ebpf/src/lib.rs:556-577 | a TCP segment that verified leaves with the right checksum at bytes 16 and 17, 0 for 0xFFFF |
| WireFormat.ReplyTcpChecksum | natto64-ebpf/src/lib.rs:1023-1034 | the same for a delivered TCP reply without options |
| RoundTrip.ReplyTransportRewritten | natto64-ebpf/src/lib.rs:1003-1034 | without IPv4 options the reply's transport is rewritten as a segment of its own |
| RoundTrip.ZeroTestReadsClientAddress | natto64-ebpf/src/lib.rs:1155-1169 | for every header length, a UDP reply arrives exactly when no helper fails and the word at the old offset, never its checksum, is not zero |
| RoundTrip.OptionsMisplaceThePort | natto64-ebpf/src/lib.rs:1003 | behind the options, where the client does not look, the sender's header carries the client's port exactly when there are no options or the ports are equal |
| RoundTrip.OptionsUpdateThePort | natto64-ebpf/src/lib.rs:1142 | behind four bytes of options a UDP port is updated as the checksum, and is right exactly when ports and pseudo-headers balance |
| Differences.TruncatedFramesShareTuple | natto64-ebpf/src/lib.rs:508-577 | two first packets cut off before their checksum field, on two CPUs, with no fault, end with one external tuple for two clients |
| Differences.TruncatedFramesExist | natto64-ebpf/src/lib.rs:508-577 | two TCP frames of 60 bytes that are such packets |
| Differences.ShortUdpPassedStripped | natto64-ebpf/src/lib.rs:700-777 | a UDP frame of 60 bytes is passed on stripped as soon as it has its mapping |
| Differences.OnePortTcpPassedStripped | natto64-ebpf/src/lib.rs:477-526 | a new TCP flow under a one-port range is refused and passed on stripped |
| Differences.OnePortRangeAccepted | natto64/src/lib.rs:75-80 | such a policy passes validation and is installable |
| Differences.ChecksumDoesNotDecide | natto64-ebpf/src/lib.rs:1155-1169 | one UDP reply, any checksum: delivered exactly when the client's address bytes are not both zero |
| Differences.OptionsReplyNotMirrored | natto64-ebpf/src/lib.rs:1003 | one TCP reply with options: delivered, and never the client's packet mirrored, whatever the client's port |
| Differences.OtherPrefixNotRestored | natto64-ebpf/src/lib.rs:803-823 | under any other prefix the reply's source is not the address the client sent to |
| Differences.DatagramVerifies | natto64-ebpf/src/lib.rs:1448-1505 | a UDP datagram with checksum 0x8942 that verifies as its client sends it |
| Differences.DatagramLosesItsChecksum | natto64-ebpf/src/lib.rs:733-748 | that datagram's frame, translated by a fresh allocator with no fault, leaves with checksum 0 |

## Left out

- Kernel and Aya plumbing: `bpf_redirect_neigh`, timer registration, map loading, `clsact`, attachment, `interface_index` are success or failure choices; the default configuration used when the map has no entry is not modelled.
- Packets.Skb.L4CsumReplace: assumes no partial checksum offload, and leaves open which zero an 0xFFFF field becomes; a sender that stores 0xFFFF may see either.
- Dataplane.Dataplane.TryReverse: the counters of the reverse path are not modelled.
- Diagnostics, debug counters, the counters outside mapping requests, metrics aggregation, builder setters, error formatting, `wire.rs`, examples.
- Concurrency between one CPU's port probe and its insertion: the code does not make it atomic, so injectivity is claimed for strict runs only. Eviction breaks it too; loose runs cover both and claim traceability alone.
- A refresh that lands between the callback's last read and its removals: the code narrows this window without closing it; loose runs split the callback in two, the removals are one step.
- Time is an unbounded natural number of nanoseconds; the 64-bit clock and its saturating product are not.
- The four transport checksum functions repeat one loop; the model has the loop once with the offset of the field as a parameter. The same for the two IPv6 header builders.
- The failing conversion of a candidate port to 16 bits cannot happen and has no branch; the arm of `cooldown_push` for a slot beyond 63 neither.
- The packet is a byte sequence that each store replaces; the kernel's paging of packet data is not modelled.
- Endpoint-independent mapping (RFC 6146) and the header-field rules of RFC 7915 are not claimed: the hop limit is fixed at 64 and the traffic class is dropped.
