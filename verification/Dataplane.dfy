/** The dataplane: both classifiers and the session timer, with the tables, the per-CPU
    allocators and the packet they work on. */
module Dataplane {
  import opened Words
  import opened OnesComplement
  import opened Checksum
  import opened Headers
  import opened Abi
  import opened Pool
  import PA = PortAllocator
  import opened NatTables
  import C = Counters
  import opened Packets
  import opened Translation

  const MAX_L4_LEN: nat := 1500
  const UDP_HDR_LEN: nat := 8

  // ---------- what a forward packet asks for ----------

  /** A packet that reaches the mapping lookup: its five-tuple, the address selected for
      its client and the length its pseudo-headers carry. */
  datatype Flow = Flow(key: FwdKey, dst: Addr6, selected: u32, len: u16)

  /** The checks both transports share: an IPv6 TCP or UDP packet, without extension
      headers, to the configured prefix, from a client the pool has an address for. */
  predicate Addressed(cfg: DataplaneConfig, d: seq<byte>, info: Ipv6Info)
    requires WellFormed(cfg)
  {
    && Load16(d, 12) == Some(ETH_P_IPV6) && ParseIpv6Base(d, ETH_HDR_LEN) == Some(info)
    && info.dst[..12] == cfg.prefix96
    && !IsExtensionHeader(info.nextHeader) && info.nextHeader in {PROTO_TCP, PROTO_UDP}
    && Selected(info.src, cfg).Some?
  }

  function FlowOf(info: Ipv6Info, selected: u32, sport: u16, dport: u16, len: u16): Flow {
    Flow(FwdKey(info.src, EmbeddedV4(info.dst), sport, dport, info.nextHeader), info.dst, selected, len)
  }

  /** The flow of an addressed packet: its ports, and the length its transport gives. */
  function FlowIn(d: seq<byte>, info: Ipv6Info, selected: u32): Option<Flow> {
    var sport, dport, udpLen := Load16(d, 54), Load16(d, 56), Load16(d, 58);
    if sport.None? || dport.None? then None
    else if info.nextHeader == PROTO_TCP then
      if info.payloadLen > MAX_L4_LEN then None
      else Some(FlowOf(info, selected, sport.value, dport.value, info.payloadLen))
    else if udpLen.None? || udpLen.value < UDP_HDR_LEN || udpLen.value > MAX_L4_LEN then None
    else Some(FlowOf(info, selected, sport.value, dport.value, udpLen.value))
  }

  function ForwardFlow(cfg: DataplaneConfig, d: seq<byte>): Option<Flow>
    requires WellFormed(cfg)
  {
    var parsed := ParseIpv6Base(d, ETH_HDR_LEN);
    if parsed.None? || !Addressed(cfg, d, parsed.value) then None
    else FlowIn(d, parsed.value, Selected(parsed.value.src, cfg).value)
  }

  /** The choices of the kernel helpers for one forward packet. */
  datatype ForwardEnv = ForwardEnv(changeProtoFails: bool, csum: CsumFault, faults: Faults,
                                   natInsertFails: bool, redirect: int)

  datatype Action = Pipe | Shot | Redirected(code: int)

  function Redirect(ifindex: u32, code: int): Action {
    if ifindex == 0 then Shot else Redirected(code)
  }

  /** Untouched: passed on before any lookup, as it came. Truncated: an addressed TCP packet
      too short for its ports, passed on already stripped. Refused: no mapping. Stopped: a
      mapping, but the rewrite did not finish. */
  datatype ForwardOutcome =
    | Untouched
    | Truncated
    | Refused
    | Stopped(mapping: Mapping)
    | Translated(mapping: Mapping, inserted: bool)

  /** A frame that has its IPv4 header. */
  predicate Ipv4Headed(d: seq<byte>, d': seq<byte>, f: Flow, m: Mapping) {
    && |d| >= 54 && |d'| == |d| - 20 && f.len <= MAX_L4_LEN
    && d'[..12] == d[..12] && d'[12..14] == [0x08, 0x00]
    && d'[14..34] == Ipv4Header(f.len + 20, 0, 64, f.key.proto, Be32Bytes(m.extV4), Be32Bytes(f.key.remoteV4))
  }

  /** The frame of a packet whose rewrite stopped: header and port are written, and the
      checksum field is where the fault left it. */
  ghost predicate ForwardAbandoned(d: seq<byte>, d': seq<byte>, f: Flow, m: Mapping, fault: CsumFault) {
    && Ipv4Headed(d, d', f, m) && |d| >= 56
    && DeltaLeaves(SetWord(d[54..], 0, m.extPort), d'[34..], FieldOf(f.key.proto), fault,
                   Ipv6Pseudo(f.key.vmV6, f.dst, f.len, f.key.proto),
                   Ipv4Pseudo(m.extV4, f.key.remoteV4, f.len, f.key.proto), f.key.vmPort, m.extPort)
  }

  /** The frame a translated packet leaves as. */
  ghost predicate ForwardRewritten(d: seq<byte>, d': seq<byte>, f: Flow, m: Mapping) {
    && Ipv4Headed(d, d', f, m)
    && TransportRewritten(d[54..], d'[34..], 0, m.extPort, FieldOf(f.key.proto),
                          Ipv6Pseudo(f.key.vmV6, f.dst, f.len, f.key.proto),
                          Ipv4Pseudo(m.extV4, f.key.remoteV4, f.len, f.key.proto))
  }

  /** The rewrite of a mapped packet finishes: long enough for its checksum field, no fault. */
  predicate Completes(d: seq<byte>, f: Flow, env: ForwardEnv) {
    && !env.changeProtoFails && |d| >= 54 + FieldOf(f.key.proto) + 2
    && DeltaSucceeds(env.csum, f.key.proto != PROTO_TCP)
  }

  /** How a packet with a mapping `m` ends, from the tables `mapped` on. */
  ghost predicate Finished(cfg: DataplaneConfig, f: Flow, mapped: Tables, m: Mapping, d: seq<byte>, now: nat,
                           env: ForwardEnv,
                           t': Tables, d': seq<byte>, action: Action, outcome: ForwardOutcome)
  {
    match outcome
    case Stopped(m') =>
      && m' == m && t' == mapped && action == Pipe && !Completes(d, f, env)
      && (if env.changeProtoFails then d' == d else ForwardAbandoned(d, d', f, m, env.csum))
    case Translated(m', inserted) =>
      && m' == m && t' == (if inserted then InsertNat(mapped, f.key, m, now) else mapped)
      && Completes(d, f, env) && inserted == !env.natInsertFails && ForwardRewritten(d, d', f, m)
      && action == if inserted || f.key.proto != PROTO_TCP then Redirect(cfg.uplink, env.redirect) else Pipe
    case _ => false
  }

  /** What a packet with flow `f` does to the tables `t` and the frame `d`, for an answer
      `o` of the allocator. */
  ghost predicate FlowResult(cfg: DataplaneConfig, f: Flow, t: Tables, d: seq<byte>, now: nat, gen: u32,
                             env: ForwardEnv,
                             o: PA.Outcome, t': Tables, d': seq<byte>, action: Action, outcome: ForwardOutcome)
  {
    var timeout := TimeoutNs(cfg.sessionTimeoutSecs);
    var (mapped, m) := LookupOrCreate(t, f.key, f.selected, o, gen, now, timeout, env.faults);
    && CollisionChecked(t, f.key, f.selected, o) && |d| >= 58
    && (f.key.proto == PROTO_TCP ==> !env.changeProtoFails)
    && match m
       case None =>
         && outcome == Refused && t' == t && action == Pipe
         && d' == (if f.key.proto == PROTO_TCP then Stripped(d) else d)
       case Some(mapping) => Finished(cfg, f, mapped, mapping, d, now, env, t', d', action, outcome)
  }

  /** An addressed TCP packet that ends before its ports. */
  predicate ShortTcp(d: seq<byte>, info: Ipv6Info) {
    info.nextHeader == PROTO_TCP && info.payloadLen <= MAX_L4_LEN && |d| < 58
  }

  predicate TruncatedTcp(cfg: DataplaneConfig, d: seq<byte>)
    requires WellFormed(cfg)
  {
    var parsed := ParseIpv6Base(d, ETH_HDR_LEN);
    parsed.Some? && Addressed(cfg, d, parsed.value) && ShortTcp(d, parsed.value)
  }

  /** What one forward packet does, given the flow it belongs to, if any, and whether it is
      an addressed TCP packet too short to belong to one. */
  ghost predicate ResultFor(cfg: DataplaneConfig, flow: Option<Flow>, short: bool, t: Tables, d: seq<byte>, now: nat,
                            gen: u32,
                            env: ForwardEnv, o: PA.Outcome, t': Tables, d': seq<byte>, action: Action,
                            outcome: ForwardOutcome)
  {
    match outcome
    case Untouched =>
      && t' == t && d' == d && action == Pipe
      && (if short then env.changeProtoFails
          else flow == None || (flow.value.key.proto == PROTO_TCP && env.changeProtoFails))
    case Truncated =>
      t' == t && |d| >= 54 && d' == Stripped(d) && action == Pipe && short && !env.changeProtoFails
    case _ =>
      flow.Some? && !short && FlowResult(cfg, flow.value, t, d, now, gen, env, o, t', d', action, outcome)
  }

  ghost predicate ForwardResult(cfg: DataplaneConfig, t: Tables, d: seq<byte>, now: nat, gen: u32, env: ForwardEnv,
                                o: PA.Outcome, t': Tables, d': seq<byte>, action: Action, outcome: ForwardOutcome)
    requires WellFormed(cfg)
  {
    ResultFor(cfg, ForwardFlow(cfg, d), TruncatedTcp(cfg, d), t, d, now, gen, env, o, t', d', action, outcome)
  }

  /** A packet that belongs to a flow holds its ports. */
  lemma FlowNotShort(cfg: DataplaneConfig, d: seq<byte>)
    requires WellFormed(cfg) && ForwardFlow(cfg, d).Some?
    ensures |d| >= 58 && !TruncatedTcp(cfg, d)
  {
  }

  /** The request a mapping lookup amounts to, for the counters. */
  function RequestOf(hit: bool, o: PA.Outcome, m: Option<Mapping>): C.Request {
    if hit then C.Hit
    else if !o.Allocated? then C.NoPort(o.Exhausted?)
    else if m.None? then C.NotInserted
    else C.Created
  }

  /** What one mapping lookup asks of this CPU's allocator and adds to its counters. */
  predicate LookedUp(cfg: DataplaneConfig, counting: bool, key: FwdKey, selected: u32, t: Tables,
                     cpu: PA.State, c: C.Counters, o: PA.Outcome, m: Option<Mapping>, cpu': PA.State, c': C.Counters)
    requires PA.ValidState(cpu)
  {
    && (cpu', o) == (if key in t.fwd then (cpu, PA.Refused)
                     else PA.Alloc(cpu, PA.Call(cfg.portMin, cfg.portMax, PA.Taken(t.nat_, selected, key.proto))))
    && c' == (if counting then C.Count(c, RequestOf(key in t.fwd, o, m)) else c)
  }

  function MappingIn(outcome: ForwardOutcome): Option<Mapping> {
    match outcome
    case Stopped(m) => Some(m)
    case Translated(m, _) => Some(m)
    case _ => None
  }

  /** A packet makes one lookup, or none if it never gets that far. */
  predicate Accounted(cfg: DataplaneConfig, counting: bool, flow: Option<Flow>, t: Tables,
                      cpu: PA.State, c: C.Counters, o: PA.Outcome, outcome: ForwardOutcome,
                      cpu': PA.State, c': C.Counters)
    requires PA.ValidState(cpu)
  {
    if outcome.Untouched? || outcome.Truncated? then cpu' == cpu && c' == c
    else
      flow.Some? && LookedUp(cfg, counting, flow.value.key, flow.value.selected, t, cpu, c, o, MappingIn(outcome),
                             cpu', c')
  }

  // ---------- the counters of a sequence of forward packets ----------

  /** One forward packet as the counters see it: the tables and allocator it met. */
  datatype Visit = Visit(flow: Option<Flow>, t: Tables, cpu: PA.State, o: PA.Outcome, outcome: ForwardOutcome,
                         cpu': PA.State)

  /** Packet `i` takes the counters from `counts[i]` to `counts[i + 1]`. */
  predicate CountedAt(cfg: DataplaneConfig, visits: seq<Visit>, counts: seq<C.Counters>, i: nat)
    requires |counts| == |visits| + 1 && i < |visits|
  {
    var v := visits[i];
    && PA.ValidState(v.cpu)
    && Accounted(cfg, true, v.flow, v.t, v.cpu, counts[i], v.o, v.outcome, v.cpu', counts[i + 1])
  }

  predicate CountedRun(cfg: DataplaneConfig, visits: seq<Visit>, counts: seq<C.Counters>) {
    && |counts| == |visits| + 1 && counts[0] == C.ZERO
    && forall i :: 0 <= i < |visits| ==> CountedAt(cfg, visits, counts, i)
  }

  /** The mapping requests among the first `n` packets. */
  function Requests(visits: seq<Visit>, n: nat): seq<C.Request>
    requires n <= |visits|
  {
    if n == 0 then []
    else
      var v := visits[n - 1];
      if v.outcome.Untouched? || v.outcome.Truncated? || v.flow == None then Requests(visits, n - 1)
      else Requests(visits, n - 1) + [RequestOf(v.flow.value.key in v.t.fwd, v.o, MappingIn(v.outcome))]
  }

  lemma {:induction false} CountersCountRequests(cfg: DataplaneConfig, visits: seq<Visit>, counts: seq<C.Counters>,
                                                 n: nat)
    requires CountedRun(cfg, visits, counts) && n <= |visits|
    ensures counts[n] == C.CountAll(Requests(visits, n))
  {
    if n > 0 {
      CountersCountRequests(cfg, visits, counts, n - 1);
      assert CountedAt(cfg, visits, counts, n - 1);
      var before, after := Requests(visits, n - 1), Requests(visits, n);
      if after != before {
        assert after[..|after| - 1] == before;
      }
    }
  }

  /** Conservation over every sequence of forward packets, whatever happened to the tables
      and the allocator in between, until the counter of misses saturates. */
  lemma ForwardPacketsConserve(cfg: DataplaneConfig, visits: seq<Visit>, counts: seq<C.Counters>, n: nat)
    requires CountedRun(cfg, visits, counts) && n <= |visits| && counts[n].lookupMiss < MAX_U64
    ensures C.Conserved(counts[n])
  {
    CountersCountRequests(cfg, visits, counts, n);
    C.Conservation(Requests(visits, n));
  }

  /** On the tables, the classifier is the forward step of the session protocol. */
  lemma FlowIsForwardStep(cfg: DataplaneConfig, f: Flow, t: Tables, d: seq<byte>, now: nat, gen: u32, env: ForwardEnv,
                          o: PA.Outcome, t': Tables, d': seq<byte>, action: Action, outcome: ForwardOutcome)
    requires FlowResult(cfg, f, t, d, now, gen, env, o, t', d', action, outcome)
    ensures t' == Forward(t, f.key, f.selected, o, gen, now, TimeoutNs(cfg.sessionTimeoutSecs), env.faults,
                          Completes(d, f, env) && !env.natInsertFails)
  {
  }

  /** A packet that reaches the lookup keeps the tables inverse exactly when it finds its
      mapping, is not granted one, or completes: long enough for its checksum field, no fault. */
  lemma ClassifierKeepsInverse(cfg: DataplaneConfig, f: Flow, t: Tables, d: seq<byte>, now: nat, gen: u32,
                               env: ForwardEnv, o: PA.Outcome, t': Tables, d': seq<byte>, action: Action,
                               outcome: ForwardOutcome)
    requires FlowResult(cfg, f, t, d, now, gen, env, o, t', d', action, outcome) && Inverse(t)
    ensures Inverse(t') <==>
            || f.key in t.fwd
            || !Granted(t, f.key, o, TimeoutNs(cfg.sessionTimeoutSecs), env.faults)
            || (Completes(d, f, env) && !env.natInsertFails)
  {
    FlowIsForwardStep(cfg, f, t, d, now, gen, env, o, t', d', action, outcome);
    ForwardKeepsInverse(t, f.key, f.selected, o, gen, now, TimeoutNs(cfg.sessionTimeoutSecs), env.faults,
                        Completes(d, f, env) && !env.natInsertFails);
  }

  /** Does the protocol change take effect? It comes before the lookup for TCP, after it for UDP. */
  predicate Strips(cfg: DataplaneConfig, t: Tables, d: seq<byte>, env: ForwardEnv, o: PA.Outcome)
    requires WellFormed(cfg)
  {
    && !env.changeProtoFails
    && (TruncatedTcp(cfg, d)
        || (ForwardFlow(cfg, d).Some?
            && var key := ForwardFlow(cfg, d).value.key;
               key.proto == PROTO_TCP || Granted(t, key, o, TimeoutNs(cfg.sessionTimeoutSecs), env.faults)))
  }

  /** A packet that is not redirected is passed on, and any packet is as it came exactly when
      it left before the protocol change took effect. */
  lemma UnchangedUnlessStripped(cfg: DataplaneConfig, t: Tables, d: seq<byte>, now: nat, gen: u32, env: ForwardEnv,
                                o: PA.Outcome, t': Tables, d': seq<byte>, action: Action, outcome: ForwardOutcome)
    requires WellFormed(cfg) && ForwardResult(cfg, t, d, now, gen, env, o, t', d', action, outcome)
    ensures !outcome.Translated? ==> action == Pipe
    ensures d' == d <==> !Strips(cfg, t, d, env, o)
  {
    ResultLength(cfg, ForwardFlow(cfg, d), TruncatedTcp(cfg, d), t, d, now, gen, env, o, t', d', action, outcome);
  }

  lemma ResultLength(cfg: DataplaneConfig, flow: Option<Flow>, short: bool, t: Tables, d: seq<byte>, now: nat, gen: u32,
                     env: ForwardEnv, o: PA.Outcome, t': Tables, d': seq<byte>, action: Action, outcome: ForwardOutcome)
    requires ResultFor(cfg, flow, short, t, d, now, gen, env, o, t', d', action, outcome)
    ensures var stripped := !env.changeProtoFails
                            && (short || (flow.Some? && (flow.value.key.proto == PROTO_TCP
                                || Granted(t, flow.value.key, o, TimeoutNs(cfg.sessionTimeoutSecs), env.faults))));
            if stripped then |d'| == |d| - 20 else d' == d
  {
  }

  lemma AddressedLength(cfg: DataplaneConfig, d: seq<byte>, info: Ipv6Info)
    requires WellFormed(cfg) && Addressed(cfg, d, info)
    ensures |d| >= 54
  {
    ParseReadsFields(d, 14);
  }

  lemma RewrittenForward(d: seq<byte>, d': seq<byte>, f: Flow, m: Mapping)
    requires |d| >= 54 && f.len <= MAX_L4_LEN
    requires |d'| == |d| - 20 && d'[..14] == Stripped(d)[..14]
    requires d'[14..34] == Ipv4Header(f.len + 20, 0, 64, f.key.proto, Be32Bytes(m.extV4), Be32Bytes(f.key.remoteV4))
    ensures Ipv4Headed(d, d', f, m) && Stripped(d)[34..] == d[54..]
    ensures TransportRewritten(Stripped(d)[34..], d'[34..], 0, m.extPort, FieldOf(f.key.proto),
                               Ipv6Pseudo(f.key.vmV6, f.dst, f.len, f.key.proto),
                               Ipv4Pseudo(m.extV4, f.key.remoteV4, f.len, f.key.proto)) ==>
              ForwardRewritten(d, d', f, m)
  {
    assert Stripped(d)[34..] == d[54..];
    assert d'[..12] == d'[..14][..12] && d'[12..14] == d'[..14][12..];
    assert Stripped(d)[..14] == d[..12] + [0x08, 0x00];
  }

  // ---------- what a reply asks for ----------

  datatype Reply = Reply(n: NatKey, src: u32, srcPort: u16, len: u16, transportAt: nat)

  predicate Ipv4Candidate(cfg: DataplaneConfig, d: seq<byte>)
    requires WellFormed(cfg)
  {
    && Load16(d, 12) == Some(ETH_P_IP)
    && |d| >= 34 && d[14] / 16 == 4 && d[14] % 16 >= 5
    && WordAt(d, 16) >= d[14] % 16 * 4
    && V4InPool(Be32(d[30], d[31], d[32], d[33]), cfg)
    && WordAt(d, 20) % 0x4000 == 0
    && d[23] in {PROTO_TCP, PROTO_UDP}
  }

  /** Ports and lengths of the transport header behind an IPv4 header of `ihl` bytes. */
  function TransportReply(d: seq<byte>, ihl: nat, total: u16, proto: byte, src: u32, dst: u32): Option<Reply>
    requires ihl <= total
  {
    var at := 14 + ihl;
    var sport, dport, udpLen := Load16(d, at), Load16(d, at + 2), Load16(d, at + 4);
    if sport.None? || dport.None? then None
    else if proto == PROTO_TCP then
      if total - ihl > MAX_L4_LEN then None
      else Some(Reply(NatKey(dst, dport.value, PROTO_TCP), src, sport.value, total - ihl, at))
    else if udpLen.None? || udpLen.value < UDP_HDR_LEN || udpLen.value > MAX_L4_LEN then None
    else if total < ihl + udpLen.value then None
    else Some(Reply(NatKey(dst, dport.value, PROTO_UDP), src, sport.value, udpLen.value, at))
  }

  function ReplyFlow(cfg: DataplaneConfig, d: seq<byte>): Option<Reply>
    requires WellFormed(cfg)
  {
    if !Ipv4Candidate(cfg, d) then None
    else
      TransportReply(d, d[14] % 16 * 4, WordAt(d, 16), d[23],
                     Be32(d[26], d[27], d[28], d[29]), Be32(d[30], d[31], d[32], d[33]))
  }

  datatype ReverseEnv = ReverseEnv(changeProtoFails: bool, filler: seq<byte>, csum: CsumFault, redirect: int)

  datatype ReverseOutcome =
    | Passed
    | Abandoned(val: NatVal)
    | Delivered(val: NatVal)

  /** The frame a delivered reply leaves as: everything after the first 34 bytes is kept
      but for the port two bytes in and the checksum field. */
  ghost predicate ReverseRewritten(d: seq<byte>, d': seq<byte>, r: Reply, v: NatVal) {
    && |d| >= 34 && |d'| == |d| + 20
    && d'[..12] == d[..12] && d'[12..14] == [0x86, 0xDD]
    && d'[14..54] == Ipv6Header(r.len, r.n.proto, 64, Nat64SourceV6(r.src), v.vmV6)
    && |d'[54..]| == |d[34..]| && FieldOf(r.n.proto) + 2 <= |d[34..]| && FieldOf(r.n.proto) >= 4
    && d'[54..] == SetWord(SetWord(d[34..], 2, v.vmPort), FieldOf(r.n.proto), WordAt(d', 54 + FieldOf(r.n.proto)))
    && CheckTracks(WordAt(d, 34 + FieldOf(r.n.proto)), WordAt(d', 54 + FieldOf(r.n.proto)),
                   Ipv4Pseudo(r.src, r.n.extV4, r.len, r.n.proto),
                   Ipv6Pseudo(Nat64SourceV6(r.src), v.vmV6, r.len, r.n.proto), r.n.extPort, v.vmPort)
  }

  /** The frame once header and port are written, which is what the zero-checksum test reads. */
  function Headed(d: seq<byte>, filler: seq<byte>, r: Reply, v: NatVal): seq<byte>
    requires |d| >= 38 && |filler| == 20
  {
    d[..12] + [0x86, 0xDD] + Ipv6Header(r.len, r.n.proto, 64, Nat64SourceV6(r.src), v.vmV6)
    + SetWord(d[34..], 2, v.vmPort)
  }

  /** A validated reply reaches the redirect: no fault, long enough for its checksum field,
      and for UDP a nonzero word where the old frame had its checksum. */
  predicate Arrives(d: seq<byte>, r: Reply, v: NatVal, env: ReverseEnv)
    requires |d| >= 38 && |env.filler| == 20
  {
    && !env.changeProtoFails && |d| >= 34 + FieldOf(r.n.proto) + 2
    && DeltaSucceeds(env.csum, r.n.proto != PROTO_TCP)
    && (r.n.proto != PROTO_TCP ==> Load16(Headed(d, env.filler, r, v), r.transportAt + 6) != Some(0))
  }

  /** The frame of a reply whose rewrite stopped: as it came if the protocol change failed,
      otherwise headed; the checksum field is as it was if the zero-checksum test stopped it,
      and else where the fault left it. */
  ghost predicate ReplyAbandoned(d: seq<byte>, d': seq<byte>, r: Reply, v: NatVal, env: ReverseEnv)
    requires |d| >= 38 && |env.filler| == 20
  {
    var h := Headed(d, env.filler, r, v);
    if env.changeProtoFails then d' == d
    else if r.n.proto != PROTO_TCP && Load16(h, r.transportAt + 6) == Some(0) then d' == h
    else DeltaLeaves(h, d', 54 + FieldOf(r.n.proto), env.csum, Ipv4Pseudo(r.src, r.n.extV4, r.len, r.n.proto),
                     Ipv6Pseudo(Nat64SourceV6(r.src), v.vmV6, r.len, r.n.proto), r.n.extPort, v.vmPort)
  }

  /** What a packet that is reply `r` does to the tables and the frame. */
  ghost predicate ReplyResult(cfg: DataplaneConfig, r: Reply, t: Tables, d: seq<byte>, now: nat, env: ReverseEnv,
                              t': Tables, d': seq<byte>, action: Action, outcome: ReverseOutcome)
  {
    && |d| >= 38 && |env.filler| == 20 && t' == Reverse(t, r.n, r.src, r.srcPort, now)
    && match outcome
       case Passed => !Validated(t, r.n, r.src, r.srcPort) && d' == d && action == Pipe
       case Abandoned(v) =>
         && Validated(t, r.n, r.src, r.srcPort) && v == t'.nat_[r.n]
         && !Arrives(d, r, v, env) && action == Pipe && ReplyAbandoned(d, d', r, v, env)
       case Delivered(v) =>
         && Validated(t, r.n, r.src, r.srcPort) && v == t'.nat_[r.n]
         && Arrives(d, r, v, env) && ReverseRewritten(d, d', r, v) && action == Redirect(cfg.bridge, env.redirect)
  }

  ghost predicate ReverseResult(cfg: DataplaneConfig, t: Tables, d: seq<byte>, now: nat, env: ReverseEnv,
                                t': Tables, d': seq<byte>, action: Action, outcome: ReverseOutcome)
    requires WellFormed(cfg)
  {
    var r := ReplyFlow(cfg, d);
    if r.None? then t' == t && d' == d && action == Pipe && outcome == Passed
    else ReplyResult(cfg, r.value, t, d, now, env, t', d', action, outcome)
  }

  /** A reply is as it came exactly when it was not accepted or the protocol change failed;
      what is not delivered is passed on. */
  lemma ReplyUnchangedIff(cfg: DataplaneConfig, t: Tables, d: seq<byte>, now: nat, env: ReverseEnv,
                          t': Tables, d': seq<byte>, action: Action, outcome: ReverseOutcome)
    requires WellFormed(cfg) && ReverseResult(cfg, t, d, now, env, t', d', action, outcome)
    ensures !outcome.Delivered? ==> action == Pipe
    ensures d' == d <==>
            var r := ReplyFlow(cfg, d);
            r.None? || !Validated(t, r.value.n, r.value.src, r.value.srcPort) || env.changeProtoFails
  {
    var r := ReplyFlow(cfg, d);
    if r.Some? {
      ReplyLength(cfg, r.value, t, d, now, env, t', d', action, outcome);
    }
  }

  lemma ReplyLength(cfg: DataplaneConfig, r: Reply, t: Tables, d: seq<byte>, now: nat, env: ReverseEnv,
                    t': Tables, d': seq<byte>, action: Action, outcome: ReverseOutcome)
    requires ReplyResult(cfg, r, t, d, now, env, t', d', action, outcome)
    ensures if Validated(t, r.n, r.src, r.srcPort) && !env.changeProtoFails then |d'| == |d| + 20 else d' == d
  {
  }

  lemma HeadedParts(d: seq<byte>, filler: seq<byte>, r: Reply, v: NatVal, h: seq<byte>)
    requires |d| >= 38 && |filler| == 20 && |h| == |d| + 20
    requires h[..14] == Grown(d, filler)[..14]
    requires h[14..54] == Ipv6Header(r.len, r.n.proto, 64, Nat64SourceV6(r.src), v.vmV6)
    requires h[54..] == SetWord(Grown(d, filler)[54..], 2, v.vmPort)
    ensures h == Headed(d, filler, r, v)
  {
    assert Grown(d, filler)[54..] == d[34..];
    assert Grown(d, filler)[..14] == d[..12] + [0x86, 0xDD];
    assert h == h[..14] + h[14..54] + h[54..];
  }

  lemma RewrittenReverse(d: seq<byte>, filler: seq<byte>, r: Reply, v: NatVal, d': seq<byte>)
    requires |d| >= 38 && |filler| == 20 && |d| >= 34 + FieldOf(r.n.proto) + 2
    requires var h := Headed(d, filler, r, v);
             && OnlyWord(h, d', 54 + FieldOf(r.n.proto))
             && CheckTracks(WordAt(h, 54 + FieldOf(r.n.proto)), WordAt(d', 54 + FieldOf(r.n.proto)),
                            Ipv4Pseudo(r.src, r.n.extV4, r.len, r.n.proto),
                            Ipv6Pseudo(Nat64SourceV6(r.src), v.vmV6, r.len, r.n.proto), r.n.extPort, v.vmPort)
    ensures ReverseRewritten(d, d', r, v)
  {
    var h, field := Headed(d, filler, r, v), FieldOf(r.n.proto);
    var head := d[..12] + [0x86, 0xDD];
    var header := Ipv6Header(r.len, r.n.proto, 64, Nat64SourceV6(r.src), v.vmV6);
    assert h == head + header + SetWord(d[34..], 2, v.vmPort);
    assert h[54..] == SetWord(d[34..], 2, v.vmPort) && h[14..54] == header;
    assert d'[..12] == d[..12] && d'[12..14] == [0x86, 0xDD] && d'[14..54] == h[14..54];
    AfterDelta(d[34..], h[54..], d'[54..], 2, v.vmPort, field);
    assert WordAt(d'[54..], field) == WordAt(d', 54 + field) && WordAt(h[54..], field) == WordAt(h, 54 + field);
    assert WordAt(d[34..], field) == WordAt(d, 34 + field);
  }

  lemma ReplyBounds(d: seq<byte>, ihl: nat, total: u16, proto: byte, src: u32, dst: u32)
    requires 20 <= ihl <= total
    ensures var r := TransportReply(d, ihl, total, proto, src, dst);
            r.Some? ==>
              && |d| >= r.value.transportAt + 4 >= 38
              && (r.value.n.proto != PROTO_TCP ==> |d| >= r.value.transportAt + 6)
  {
  }

  // ---------- the dataplane ----------

  class Dataplane {
    const cfg: DataplaneConfig
    const counting: bool
    var fwd: map<FwdKey, FwdVal>
    var nat_: map<NatKey, NatVal>
    var counters: C.Counters

    /** `counting`: both counter maps are present; otherwise nothing is counted. */
    constructor (cfg: DataplaneConfig, counting: bool)
      requires WellFormed(cfg)
      ensures this.cfg == cfg && this.counting == counting
      ensures Model() == Tables(map[], map[]) && counters == C.ZERO
    {
      this.cfg, this.counting := cfg, counting;
      fwd, nat_, counters := map[], map[], C.ZERO;
    }

    ghost function Model(): Tables
      reads this
    {
      Tables(fwd, nat_)
    }

    ghost function Timeout(): nat {
      TimeoutNs(cfg.sessionTimeoutSecs)
    }

    /** The mapping of a flow: refreshed when it exists, otherwise created on a port from
        this CPU's allocator. */
    method LookupOrCreateMapping(cpu: PA.Allocator, key: FwdKey, selected: u32, gen: u32, now: nat, faults: Faults)
      returns (m: Option<Mapping>, ghost o: PA.Outcome)
      requires cpu.Valid() && this !in cpu.Repr()
      modifies this`fwd, this`counters, cpu.Repr()
      ensures (Model(), m) == LookupOrCreate(old(Model()), key, selected, o, gen, now, Timeout(), faults)
      ensures CollisionChecked(old(Model()), key, selected, o)
      ensures LookedUp(cfg, counting, key, selected, old(Model()), old(cpu.Model()), old(counters), o, m,
                       cpu.Model(), counters)
    {
      o := PA.Refused;
      if key in fwd {
        var v := fwd[key];
        fwd := fwd[key := v.(lastSeen := now, observed := 0)];
        if counting {
          counters := counters.(lookupHit := C.SatInc(counters.lookupHit));
          counters := counters.(refreshOk := C.SatInc(counters.refreshOk));
        }
        m := Some(Mapping(v.extV4, v.extPort, v.generation));
        return;
      }
      m, o := CreateMapping(cpu, key, selected, gen, now, faults);
    }

    /** The branch of a lookup that found nothing. */
    method CreateMapping(cpu: PA.Allocator, key: FwdKey, selected: u32, gen: u32, now: nat, faults: Faults)
      returns (m: Option<Mapping>, ghost o: PA.Outcome)
      requires cpu.Valid() && this !in cpu.Repr() && key !in fwd
      modifies this`fwd, this`counters, cpu.Repr()
      ensures (Model(), m) == LookupOrCreate(old(Model()), key, selected, o, gen, now, Timeout(), faults)
      ensures CollisionChecked(old(Model()), key, selected, o)
      ensures LookedUp(cfg, counting, key, selected, old(Model()), old(cpu.Model()), old(counters), o, m,
                       cpu.Model(), counters)
    {
      if counting {
        counters := counters.(lookupMiss := C.SatInc(counters.lookupMiss));
      }
      ghost var before := cpu.Model();
      var port := cpu.AllocPort(cfg.portMin, cfg.portMax, selected, key.proto, nat_);
      o := port;
      PA.AllocGivesFreePort(before, PA.Call(cfg.portMin, cfg.portMax, PA.Taken(nat_, selected, key.proto)));
      if counting {
        if port.Exhausted? {
          counters := counters.(portAllocExhausted := C.SatInc(counters.portAllocExhausted));
        }
        if port.Allocated? {
          counters := counters.(portAllocOk := C.SatInc(counters.portAllocOk));
        } else {
          counters := counters.(portAllocErr := C.SatInc(counters.portAllocErr));
        }
      }
      if !port.Allocated? {
        m := None;
        return;
      }
      var created := Insert(key, selected, port.port, gen, now, faults);
      if counting {
        if created {
          counters := counters.(insertOk := C.SatInc(counters.insertOk));
        } else {
          counters := counters.(insertErr := C.SatInc(counters.insertErr));
        }
      }
      m := if created then Some(Mapping(selected, port.port, gen)) else None;
    }

    /** Insert the mapping and arm its timer; a mapping whose timer cannot be armed goes again. */
    method Insert(key: FwdKey, selected: u32, port: u16, gen: u32, now: nat, faults: Faults) returns (created: bool)
      requires key !in fwd
      modifies this`fwd
      ensures created <==> !faults.fwdInsert && !(Timeout() != 0 && faults.arm)
      ensures fwd == if created
                     then old(fwd)[key := FwdVal(selected, port, now, gen, 0,
                                                 if Timeout() == 0 then None else Rearm(now, Timeout()))]
                     else old(fwd)
    {
      if faults.fwdInsert {
        return false;
      }
      fwd := fwd[key := FwdVal(selected, port, now, gen, 0, None)];
      if cfg.sessionTimeoutSecs != 0 {
        if faults.arm {
          fwd := fwd - {key};
          return false;
        }
        fwd := fwd[key := fwd[key].(deadline := Rearm(now, TimeoutNs(cfg.sessionTimeoutSecs)))];
      }
      return true;
    }

    method InsertReverse(key: FwdKey, m: Mapping, now: nat, fails: bool) returns (ok: bool)
      modifies this`nat_
      ensures ok == !fails
      ensures Model() == if ok then InsertNat(old(Model()), key, m, now) else old(Model())
    {
      ok := !fails;
      if ok {
        nat_ := nat_[NatKey(m.extV4, m.extPort, key.proto) :=
                     NatVal(key.vmV6, key.vmPort, key.remoteV4, key.remotePort, m.generation, now)];
      }
    }

    /** The checks both transports share. */
    method Classify(d: seq<byte>) returns (r: Option<(Ipv6Info, u32)>)
      requires WellFormed(cfg)
      ensures var parsed := ParseIpv6Base(d, ETH_HDR_LEN);
              r == if parsed.Some? && Addressed(cfg, d, parsed.value)
                   then Some((parsed.value, Selected(parsed.value.src, cfg).value))
                   else None
    {
      var etherType := Load16(d, 12);
      if etherType == None || etherType.value != ETH_P_IPV6 {
        return None;
      }
      var parsed := ParseIpv6Base(d, ETH_HDR_LEN);
      if parsed == None {
        return None;
      }
      var info := parsed.value;
      if info.dst[..12] != cfg.prefix96 {
        return None;
      }
      if IsExtensionHeader(info.nextHeader) || (info.nextHeader != PROTO_TCP && info.nextHeader != PROTO_UDP) {
        return None;
      }
      var selected := SelectV4FromPoolEbpf(info.src, cfg);
      if selected == None {
        return None;
      }
      return Some((info, selected.value));
    }

    /** The forward classifier. */
    method TryForward(cpu: PA.Allocator, skb: Skb, now: nat, gen: u32, env: ForwardEnv)
      returns (action: Action, outcome: ForwardOutcome, ghost o: PA.Outcome)
      requires WellFormed(cfg) && cpu.Valid()
      modifies this`fwd, this`nat_, this`counters, skb, cpu.Repr()
      ensures ForwardResult(cfg, old(Model()), old(skb.data), now, gen, env, o, Model(), skb.data, action, outcome)
      ensures Accounted(cfg, counting, ForwardFlow(cfg, old(skb.data)), old(Model()),
                        old(cpu.Model()), old(counters), o, outcome, cpu.Model(), counters)
    {
      o := PA.Refused;
      var addressed := Classify(skb.data);
      if addressed == None {
        return Pipe, Untouched, o;
      }
      var (info, selected) := addressed.value;
      AddressedLength(cfg, skb.data, info);
      if info.nextHeader == PROTO_TCP {
        action, outcome, o := ForwardTcp(cpu, skb, info, selected, now, gen, env);
      } else {
        action, outcome, o := ForwardUdp(cpu, skb, info, selected, now, gen, env);
      }
    }

    /** TCP: the frame is stripped before the ports are read and the mapping is looked up. */
    method ForwardTcp(cpu: PA.Allocator, skb: Skb, info: Ipv6Info, selected: u32, now: nat, gen: u32, env: ForwardEnv)
      returns (action: Action, outcome: ForwardOutcome, ghost o: PA.Outcome)
      requires cpu.Valid() && |skb.data| >= 54 && info.nextHeader == PROTO_TCP
      modifies this`fwd, this`nat_, this`counters, skb, cpu.Repr()
      ensures ResultFor(cfg, FlowIn(old(skb.data), info, selected), ShortTcp(old(skb.data), info), old(Model()),
                        old(skb.data), now, gen, env, o, Model(), skb.data, action, outcome)
      ensures Accounted(cfg, counting, FlowIn(old(skb.data), info, selected), old(Model()),
                        old(cpu.Model()), old(counters), o, outcome, cpu.Model(), counters)
    {
      o := PA.Refused;
      ghost var d := skb.data;
      if info.payloadLen > MAX_L4_LEN {
        return Pipe, Untouched, o;
      }
      var ok := StripToIpv4(skb, env.changeProtoFails);
      if !ok {
        return Pipe, Untouched, o;
      }
      assert skb.data[34..] == d[54..];
      var sport, dport := Load16(skb.data, 34), Load16(skb.data, 36);
      if sport == None || dport == None {
        return Pipe, Truncated, o;
      }
      var f := FlowOf(info, selected, sport.value, dport.value, info.payloadLen);
      action, outcome, o := TranslateTcp(cpu, skb, f, now, gen, env, d);
    }

    method TranslateTcp(cpu: PA.Allocator, skb: Skb, f: Flow, now: nat, gen: u32, env: ForwardEnv, ghost d: seq<byte>)
      returns (action: Action, outcome: ForwardOutcome, ghost o: PA.Outcome)
      requires cpu.Valid() && f.key.proto == PROTO_TCP && f.len <= MAX_L4_LEN && !env.changeProtoFails
      requires |d| >= 58 && skb.data == Stripped(d) && WordAt(d, 54) == f.key.vmPort
      modifies this`fwd, this`nat_, this`counters, skb, cpu.Repr()
      ensures LookedUp(cfg, counting, f.key, f.selected, old(Model()), old(cpu.Model()), old(counters), o,
                       MappingIn(outcome), cpu.Model(), counters)
      ensures !outcome.Untouched? && !outcome.Truncated?
      ensures FlowResult(cfg, f, old(Model()), d, now, gen, env, o, Model(), skb.data, action, outcome)
    {
      var m;
      m, o := LookupOrCreateMapping(cpu, f.key, f.selected, gen, now, env.faults);
      if m == None {
        return Pipe, Refused, o;
      }
      action, outcome := FinishTcp(skb, f, m.value, now, env, d);
    }

    method FinishTcp(skb: Skb, f: Flow, m: Mapping, now: nat, env: ForwardEnv, ghost d: seq<byte>)
      returns (action: Action, outcome: ForwardOutcome)
      requires f.key.proto == PROTO_TCP && f.len <= MAX_L4_LEN && !env.changeProtoFails
      requires |d| >= 58 && skb.data == Stripped(d) && WordAt(d, 54) == f.key.vmPort
      modifies this`nat_, skb
      ensures Finished(cfg, f, old(Model()), m, d, now, env, Model(), skb.data, action, outcome)
    {
      var ok := RewriteStripped(skb, f, m, env.csum, d);
      if !ok {
        return Pipe, Stopped(m);
      }
      var inserted := InsertReverse(f.key, m, now, env.natInsertFails);
      if !inserted {
        return Pipe, Translated(m, false);
      }
      return Redirect(cfg.uplink, env.redirect), Translated(m, true);
    }

    /** UDP: the mapping is looked up before the frame is touched. */
    method ForwardUdp(cpu: PA.Allocator, skb: Skb, info: Ipv6Info, selected: u32, now: nat, gen: u32, env: ForwardEnv)
      returns (action: Action, outcome: ForwardOutcome, ghost o: PA.Outcome)
      requires cpu.Valid() && |skb.data| >= 54 && info.nextHeader == PROTO_UDP
      modifies this`fwd, this`nat_, this`counters, skb, cpu.Repr()
      ensures ResultFor(cfg, FlowIn(old(skb.data), info, selected), ShortTcp(old(skb.data), info), old(Model()),
                        old(skb.data), now, gen, env, o, Model(), skb.data, action, outcome)
      ensures Accounted(cfg, counting, FlowIn(old(skb.data), info, selected), old(Model()),
                        old(cpu.Model()), old(counters), o, outcome, cpu.Model(), counters)
    {
      o := PA.Refused;
      var sport, dport, len := Load16(skb.data, 54), Load16(skb.data, 56), Load16(skb.data, 58);
      if sport == None || dport == None || len == None {
        return Pipe, Untouched, o;
      }
      if len.value < UDP_HDR_LEN || len.value > MAX_L4_LEN {
        return Pipe, Untouched, o;
      }
      var f := FlowOf(info, selected, sport.value, dport.value, len.value);
      action, outcome, o := TranslateUdp(cpu, skb, f, now, gen, env);
    }

    method TranslateUdp(cpu: PA.Allocator, skb: Skb, f: Flow, now: nat, gen: u32, env: ForwardEnv)
      returns (action: Action, outcome: ForwardOutcome, ghost o: PA.Outcome)
      requires cpu.Valid() && f.key.proto == PROTO_UDP && f.len <= MAX_L4_LEN
      requires |skb.data| >= 58 && WordAt(skb.data, 54) == f.key.vmPort
      modifies this`fwd, this`nat_, this`counters, skb, cpu.Repr()
      ensures LookedUp(cfg, counting, f.key, f.selected, old(Model()), old(cpu.Model()), old(counters), o,
                       MappingIn(outcome), cpu.Model(), counters)
      ensures !outcome.Untouched? && !outcome.Truncated?
      ensures FlowResult(cfg, f, old(Model()), old(skb.data), now, gen, env, o, Model(), skb.data, action, outcome)
    {
      var m;
      m, o := LookupOrCreateMapping(cpu, f.key, f.selected, gen, now, env.faults);
      if m == None {
        return Pipe, Refused, o;
      }
      action, outcome := FinishUdp(skb, f, m.value, now, env);
    }

    /** A failed `NAT` insertion does not stop a UDP packet. */
    method FinishUdp(skb: Skb, f: Flow, m: Mapping, now: nat, env: ForwardEnv)
      returns (action: Action, outcome: ForwardOutcome)
      requires f.key.proto == PROTO_UDP && f.len <= MAX_L4_LEN
      requires |skb.data| >= 58 && WordAt(skb.data, 54) == f.key.vmPort
      modifies this`nat_, skb
      ensures Finished(cfg, f, old(Model()), m, old(skb.data), now, env, Model(), skb.data, action, outcome)
    {
      ghost var d := skb.data;
      var ok := StripToIpv4(skb, env.changeProtoFails);
      if !ok {
        return Pipe, Stopped(m);
      }
      ok := RewriteStripped(skb, f, m, env.csum, d);
      if !ok {
        return Pipe, Stopped(m);
      }
      var inserted := InsertReverse(f.key, m, now, env.natInsertFails);
      return Redirect(cfg.uplink, env.redirect), Translated(m, inserted);
    }

    /** The reverse classifier. */
    method TryReverse(skb: Skb, now: nat, env: ReverseEnv) returns (action: Action, outcome: ReverseOutcome)
      requires WellFormed(cfg) && |env.filler| == 20
      modifies this`nat_, skb
      ensures ReverseResult(cfg, old(Model()), old(skb.data), now, env, Model(), skb.data, action, outcome)
    {
      var etherType := Load16(skb.data, 12);
      if etherType == None || etherType.value != ETH_P_IP {
        return Pipe, Passed;
      }
      var vihl := Load8(skb.data, 14);
      if vihl == None || vihl.value / 16 != 4 {
        return Pipe, Passed;
      }
      var ihl := vihl.value % 16 * 4;
      if !(20 <= ihl <= 60) {
        return Pipe, Passed;
      }
      var totalLen := Load16(skb.data, 16);
      if totalLen == None || totalLen.value < ihl {
        return Pipe, Passed;
      }
      var fragment, proto := Load16(skb.data, 20), Load8(skb.data, 23);
      var src, dst := Load32(skb.data, 26), Load32(skb.data, 30);
      if fragment == None || proto == None || src == None || dst == None {
        return Pipe, Passed;
      }
      if !V4InPool(dst.value, cfg) {
        return Pipe, Passed;
      }
      if fragment.value % 0x4000 != 0 {
        return Pipe, Passed;
      }
      if proto.value != PROTO_TCP && proto.value != PROTO_UDP {
        return Pipe, Passed;
      }
      var r := TransportReply(skb.data, ihl, totalLen.value, proto.value, src.value, dst.value);
      ReplyBounds(skb.data, ihl, totalLen.value, proto.value, src.value, dst.value);
      if r == None {
        return Pipe, Passed;
      }
      action, outcome := Deliver(skb, r.value, now, env);
    }

    /** Look the reply up, refresh its session and rewrite it towards the client. */
    method Deliver(skb: Skb, r: Reply, now: nat, env: ReverseEnv) returns (action: Action, outcome: ReverseOutcome)
      requires |env.filler| == 20 && |skb.data| >= r.transportAt + 4 >= 38
      requires r.n.proto != PROTO_TCP ==> |skb.data| >= r.transportAt + 6
      modifies this`nat_, skb
      ensures ReplyResult(cfg, r, old(Model()), old(skb.data), now, env, Model(), skb.data, action, outcome)
    {
      if r.n !in nat_ || !NatTupleMatches(nat_[r.n], r.src, r.srcPort) {
        return Pipe, Passed;
      }
      var v := nat_[r.n].(lastSeen := now);
      nat_ := nat_[r.n := v];
      var delivered := RewriteToIpv6(skb, r, v, env);
      if !delivered {
        return Pipe, Abandoned(v);
      }
      return Redirect(cfg.bridge, env.redirect), Delivered(v);
    }

    // ---------- the session timer ----------

    /** The timer callback up to the confirmed branch. */
    method CallbackFirst(key: FwdKey, now: nat) returns (confirmed: Option<nat>)
      requires key in fwd
      modifies this`fwd
      ensures (Model(), confirmed) == TimerFirst(old(Model()), key, now, Timeout())
    {
      var timeout := TimeoutNs(cfg.sessionTimeoutSecs);
      if timeout == 0 {
        return None;
      }
      var v := fwd[key];
      var n := NatKey(v.extV4, v.extPort, key.proto);
      var reverseSeen := if n in nat_ && nat_[n].generation == v.generation then nat_[n].lastSeen else 0;
      var latest := Max(v.lastSeen, reverseSeen);
      var elapsed := SaturatingSub(now, latest);
      if elapsed < timeout {
        fwd := fwd[key := v.(observed := 0, deadline := Rearm(now, timeout - elapsed))];
        return None;
      }
      if v.observed != latest {
        fwd := fwd[key := v.(observed := latest, deadline := Rearm(now, EXPIRY_CONFIRMATION_NS))];
        return None;
      }
      return Some(latest);
    }

    /** The confirmed branch: a second read, then the removals. */
    method CallbackFinish(key: FwdKey, latest: nat, now: nat)
      requires key in fwd
      modifies this`fwd, this`nat_
      ensures Model() == TimerFinish(old(Model()), key, latest, now, Timeout())
    {
      var timeout := TimeoutNs(cfg.sessionTimeoutSecs);
      var v := fwd[key];
      var n := NatKey(v.extV4, v.extPort, key.proto);
      var current := n in nat_ && nat_[n].generation == v.generation;
      var final := Max(v.lastSeen, if current then nat_[n].lastSeen else 0);
      if final != latest || SaturatingSub(now, final) < timeout {
        var delay := SaturatingSub(timeout, SaturatingSub(now, final));
        fwd := fwd[key := v.(observed := 0, deadline := Rearm(now, delay))];
        return;
      }
      if current {
        nat_ := nat_ - {n};
      }
      fwd := fwd - {key};
    }

    method SessionTimerCallback(key: FwdKey, now: nat)
      requires key in fwd
      modifies this`fwd, this`nat_
      ensures Model() == Timer(old(Model()), key, now, Timeout())
    {
      var confirmed := CallbackFirst(key, now);
      if confirmed.Some? {
        CallbackFinish(key, confirmed.value, now);
      }
    }
  }

  /** Header, port and checksum of a stripped frame. */
  method RewriteStripped(skb: Skb, f: Flow, m: Mapping, fault: CsumFault, ghost d: seq<byte>) returns (ok: bool)
    requires |d| >= 58 && skb.data == Stripped(d) && f.len <= MAX_L4_LEN && WordAt(d, 54) == f.key.vmPort
    modifies skb
    ensures ok <==> |d| >= 54 + FieldOf(f.key.proto) + 2 && DeltaSucceeds(fault, f.key.proto != PROTO_TCP)
    ensures if ok then ForwardRewritten(d, skb.data, f, m) else ForwardAbandoned(d, skb.data, f, m, fault)
  {
    assert skb.data[34..] == d[54..];
    ok := RewriteToIpv4(skb, f.len, m.extV4, m.extPort, f.key.remoteV4, f.key.proto, f.key.vmV6, f.dst,
                        f.key.vmPort, fault);
    RewrittenForward(d, skb.data, f, m);
  }

  /** A grown frame with its IPv6 header and the client's port. */
  method HeadIpv6(skb: Skb, r: Reply, v: NatVal, env: ReverseEnv) returns (ok: bool)
    requires |env.filler| == 20 && |skb.data| >= 38
    modifies skb
    ensures ok == !env.changeProtoFails
    ensures skb.data == if ok then Headed(old(skb.data), env.filler, r, v) else old(skb.data)
  {
    ghost var d := skb.data;
    ok := GrowToIpv6(skb, env.changeProtoFails, env.filler);
    if ok {
      WriteIpv6AndPort(skb, r.len, r.n.proto, Nat64SourceV6(r.src), v.vmV6, v.vmPort);
      HeadedParts(d, env.filler, r, v, skb.data);
    }
  }

  method RewriteToIpv6(skb: Skb, r: Reply, v: NatVal, env: ReverseEnv) returns (ok: bool)
    requires |env.filler| == 20 && |skb.data| >= r.transportAt + 4 >= 38
    requires r.n.proto != PROTO_TCP ==> |skb.data| >= r.transportAt + 6
    modifies skb
    ensures ok <==> Arrives(old(skb.data), r, v, env)
    ensures ok ==> ReverseRewritten(old(skb.data), skb.data, r, v)
    ensures !ok ==> ReplyAbandoned(old(skb.data), skb.data, r, v, env)
  {
    ghost var d := skb.data;
    ok := HeadIpv6(skb, r, v, env);
    if !ok {
      return;
    }
    var src := Nat64SourceV6(r.src);
    if r.n.proto != PROTO_TCP {
      var incoming := Load16(skb.data, r.transportAt + 6);
      if incoming == None || incoming.value == 0 {
        return false;
      }
    }
    ok := ApplyDeltaV4ToV6(skb, 54 + FieldOf(r.n.proto), r.len, r.n.proto, r.src, r.n.extV4, src, v.vmV6,
                           r.n.extPort, v.vmPort, r.n.proto != PROTO_TCP, env.csum);
    assert |Headed(d, env.filler, r, v)| == |d| + 20;
    if ok {
      RewrittenReverse(d, env.filler, r, v, skb.data);
    }
  }
}
