/** Inputs on which the code does not do what its documentation or its design says: frames
    driven through the contracts of the two classifiers, and configurations. */
module Differences {
  import opened Words
  import opened OnesComplement
  import opened Checksum
  import opened Headers
  import opened Abi
  import opened Pool
  import PA = PortAllocator
  import opened NatTables
  import C = Counters
  import opened Packets
  import opened Translation
  import opened Dataplane
  import opened RoundTrip

  // ---------- frames ----------

  /** An IPv6 frame with `t` behind the base header. */
  function ClientFrame(src: Addr6, dst: Addr6, proto: byte, len: u16, t: seq<byte>): seq<byte> {
    Zeros(12) + [0x86, 0xDD] + Ipv6Header(len, proto, 64, src, dst) + t
  }

  lemma ThreeParts(e: seq<byte>, h: seq<byte>, t: seq<byte>)
    requires |e| == 14 && |h| == 40
    ensures var d := e + h + t;
            && |d| == 54 + |t| && d[14..54] == h && d[54..] == t
            && d[12] == e[12] && d[13] == e[13] && d[18] == h[4] && d[19] == h[5] && d[20] == h[6]
  {
  }

  lemma ParsedHeader(d: seq<byte>, h: seq<byte>, len: u16, proto: byte, hopLimit: byte, src: Addr6, dst: Addr6)
    requires |d| >= 54 && d[14..54] == h && h == Ipv6Header(len, proto, hopLimit, src, dst)
    requires d[18] == h[4] && d[19] == h[5] && d[20] == h[6]
    ensures ParseIpv6Base(d, ETH_HDR_LEN) == Some(Ipv6Info(src, dst, proto, len, 54))
  {
    Ipv6HeaderFields(h, len, proto, hopLimit, src, dst);
    SliceOfSlice(d, 14, 54, 8, 24);
    SliceOfSlice(d, 14, 54, 24, 40);
    ParseReadsFields(d, 14);
    Ipv6HeaderNumbers(len, proto, hopLimit, src, dst);
  }

  lemma Ipv6HeaderNumbers(len: u16, proto: byte, hopLimit: byte, src: Addr6, dst: Addr6)
    ensures var h := Ipv6Header(len, proto, hopLimit, src, dst); Be16(h[4], h[5]) == len && h[6] == proto
  {
  }

  lemma ClientFrameFields(src: Addr6, dst: Addr6, proto: byte, len: u16, t: seq<byte>)
    ensures var d := ClientFrame(src, dst, proto, len, t);
            && |d| == 54 + |t| && d[54..] == t && Load16(d, 12) == Some(ETH_P_IPV6)
            && ParseIpv6Base(d, ETH_HDR_LEN) == Some(Ipv6Info(src, dst, proto, len, 54))
  {
    var d, h := ClientFrame(src, dst, proto, len, t), Ipv6Header(len, proto, 64, src, dst);
    ThreeParts(Zeros(12) + [0x86, 0xDD], h, t);
    ParsedHeader(d, h, len, proto, 64, src, dst);
  }

  lemma LoadBehind(d: seq<byte>, t: seq<byte>, at: nat, i: nat)
    requires at <= |d| && d[at..] == t
    ensures Load16(d, at + i) == if i + 2 <= |t| then Some(WordAt(t, i)) else None
  {
    if i + 2 <= |t| {
      assert d[at + i] == t[i] && d[at + i + 1] == t[i + 1];
    }
  }

  /** A frame to the prefix from a client of the pool belongs to a flow as soon as it holds
      the ports (and, for UDP, a length in range). */
  lemma ClientFrameFlow(cfg: DataplaneConfig, src: Addr6, dst: Addr6, proto: byte, len: u16, t: seq<byte>)
    requires WellFormed(cfg) && dst[..12] == cfg.prefix96 && Selected(src, cfg).Some?
    requires proto == PROTO_TCP ==> |t| >= 4 && len <= MAX_L4_LEN
    requires proto == PROTO_UDP ==> |t| >= 6 && UDP_HDR_LEN <= WordAt(t, 4) <= MAX_L4_LEN
    requires proto in {PROTO_TCP, PROTO_UDP}
    ensures ForwardFlow(cfg, ClientFrame(src, dst, proto, len, t)) ==
            Some(Flow(FwdKey(src, EmbeddedV4(dst), WordAt(t, 0), WordAt(t, 2), proto), dst, Selected(src, cfg).value,
                      if proto == PROTO_TCP then len else WordAt(t, 4)))
  {
    ClientFrameFields(src, dst, proto, len, t);
    FlowOfParts(cfg, ClientFrame(src, dst, proto, len, t), Ipv6Info(src, dst, proto, len, 54), t);
  }

  lemma FlowOfParts(cfg: DataplaneConfig, d: seq<byte>, info: Ipv6Info, t: seq<byte>)
    requires WellFormed(cfg) && info.dst[..12] == cfg.prefix96 && Selected(info.src, cfg).Some?
    requires Load16(d, 12) == Some(ETH_P_IPV6) && ParseIpv6Base(d, ETH_HDR_LEN) == Some(info)
    requires |d| >= 54 && d[54..] == t
    requires info.nextHeader == PROTO_TCP ==> |t| >= 4 && info.payloadLen <= MAX_L4_LEN
    requires info.nextHeader == PROTO_UDP ==> |t| >= 6 && UDP_HDR_LEN <= WordAt(t, 4) <= MAX_L4_LEN
    requires info.nextHeader in {PROTO_TCP, PROTO_UDP}
    ensures ForwardFlow(cfg, d) ==
            Some(Flow(FwdKey(info.src, EmbeddedV4(info.dst), WordAt(t, 0), WordAt(t, 2), info.nextHeader), info.dst,
                      Selected(info.src, cfg).value,
                      if info.nextHeader == PROTO_TCP then info.payloadLen else WordAt(t, 4)))
  {
    LoadBehind(d, t, 54, 0);
    LoadBehind(d, t, 54, 2);
    LoadBehind(d, t, 54, 4);
    ForwardFlowOf(cfg, d, info);
  }

  lemma ForwardFlowOf(cfg: DataplaneConfig, d: seq<byte>, info: Ipv6Info)
    requires WellFormed(cfg) && ParseIpv6Base(d, ETH_HDR_LEN) == Some(info) && Addressed(cfg, d, info)
    ensures ForwardFlow(cfg, d) == FlowIn(d, info, Selected(info.src, cfg).value)
  {
  }

  // ---------- a server's frame ----------

  lemma FourParts(e: seq<byte>, h: seq<byte>, rest: seq<byte>)
    requires |e| == 14 && |h| == 20
    ensures var d := e + h + rest;
            && |d| == 34 + |rest| && d[14..34] == h && d[34..] == rest && d[12] == e[12] && d[13] == e[13]
  {
  }

  lemma Ipv4Numbers(d: seq<byte>, h: seq<byte>)
    requires |d| >= 34 && |h| == 20 && d[14..34] == h
    ensures d[14] == h[0] && WordAt(d, 16) == WordAt(h, 2) && WordAt(d, 20) == WordAt(h, 6) && d[23] == h[9]
    ensures AddressAt(d, 26) == AddressAt(h, 12) && AddressAt(d, 30) == AddressAt(h, 16)
  {
    forall k | 0 <= k < 20
      ensures d[14 + k] == h[k]
    {
      assert h[k] == d[14..34][k];
    }
  }

  function ServerHeader(vihl: byte, total: Pair, proto: byte, src: Addr4, dst: Addr4): (h: seq<byte>)
    ensures |h| == 20
    ensures h[0] == vihl && WordAt(h, 2) == Be16(total[0], total[1]) && WordAt(h, 6) == 0 && h[9] == proto
    ensures AddressAt(h, 12) == Be32(src[0], src[1], src[2], src[3])
    ensures AddressAt(h, 16) == Be32(dst[0], dst[1], dst[2], dst[3])
  {
    [vihl, 0] + total + [0, 0, 0, 0, 64, proto, 0, 0] + src + dst
  }

  /** An IPv4 frame with `t` behind the options. */
  function ServerFrame(vihl: byte, total: u16, proto: byte, src: Addr4, dst: Addr4, options: seq<byte>, t: seq<byte>):
    seq<byte>
  {
    Zeros(12) + [0x08, 0x00] + ServerHeader(vihl, Be16Bytes(total), proto, src, dst) + (options + t)
  }

  function Number(a: Addr4): u32 {
    Be32(a[0], a[1], a[2], a[3])
  }

  /** The reply a server's frame amounts to. */
  function ServerReply(total: u16, proto: byte, src: Addr4, dst: Addr4, options: nat, t: seq<byte>): Reply
    requires total >= 20 + options && |t| >= 6
  {
    Reply(NatKey(Number(dst), WordAt(t, 2), proto), Number(src), WordAt(t, 0),
          if proto == PROTO_TCP then Wrap16(total - 20 - options) else WordAt(t, 4), 34 + options)
  }

  lemma ServerFrameReply(cfg: DataplaneConfig, vihl: byte, total: u16, proto: byte, src: Addr4, dst: Addr4,
                         options: seq<byte>, t: seq<byte>)
    requires WellFormed(cfg) && V4InPool(Number(dst), cfg) && proto in {PROTO_TCP, PROTO_UDP}
    requires vihl / 16 == 4 && vihl % 16 * 4 == 20 + |options| && |t| >= 6
    requires total >= 20 + |options|
    requires if proto == PROTO_TCP then total - 20 - |options| <= MAX_L4_LEN
             else UDP_HDR_LEN <= WordAt(t, 4) <= MAX_L4_LEN && total >= 20 + |options| + WordAt(t, 4)
    ensures var d := ServerFrame(vihl, total, proto, src, dst, options, t);
            && |d| == 34 + |options| + |t| && d[34..] == options + t && d[34 + |options|..] == t
            && ReplyFlow(cfg, d) == Some(ServerReply(total, proto, src, dst, |options|, t))
  {
    var d := ServerFrame(vihl, total, proto, src, dst, options, t);
    var h, rest := ServerHeader(vihl, Be16Bytes(total), proto, src, dst), options + t;
    FourParts(Zeros(12) + [0x08, 0x00], h, rest);
    Ipv4Numbers(d, h);
    Behind(d, options, t);
    ReplyOfParts(cfg, d, total, proto, src, dst, |options|, t);
  }

  lemma Behind(d: seq<byte>, options: seq<byte>, t: seq<byte>)
    requires |d| >= 34 && d[34..] == options + t
    ensures |d| == 34 + |options| + |t| && d[34 + |options|..] == t
  {
    assert d[34 + |options|..] == d[34..][|options|..];
  }

  lemma ReplyOfParts(cfg: DataplaneConfig, d: seq<byte>, total: u16, proto: byte, src: Addr4, dst: Addr4,
                     options: nat, t: seq<byte>)
    requires WellFormed(cfg) && V4InPool(Number(dst), cfg) && proto in {PROTO_TCP, PROTO_UDP}
    requires |d| == 34 + options + |t| && d[34 + options..] == t && |t| >= 6
    requires Load16(d, 12) == Some(ETH_P_IP) && d[14] / 16 == 4 && d[14] % 16 * 4 == 20 + options
    requires WordAt(d, 16) == total >= 20 + options && WordAt(d, 20) == 0 && d[23] == proto
    requires AddressAt(d, 26) == Number(src) && AddressAt(d, 30) == Number(dst)
    requires if proto == PROTO_TCP then total - 20 - options <= MAX_L4_LEN
             else UDP_HDR_LEN <= WordAt(t, 4) <= MAX_L4_LEN && total >= 20 + options + WordAt(t, 4)
    ensures ReplyFlow(cfg, d) == Some(ServerReply(total, proto, src, dst, options, t))
  {
    TransportOfParts(d, total, proto, src, dst, options, t);
    CandidateReply(cfg, d, 20 + options);
  }

  lemma TransportOfParts(d: seq<byte>, total: u16, proto: byte, src: Addr4, dst: Addr4, options: nat, t: seq<byte>)
    requires |d| == 34 + options + |t| && d[34 + options..] == t && |t| >= 6 && total >= 20 + options
    requires if proto == PROTO_TCP then total - 20 - options <= MAX_L4_LEN
             else UDP_HDR_LEN <= WordAt(t, 4) <= MAX_L4_LEN && total >= 20 + options + WordAt(t, 4)
    requires proto in {PROTO_TCP, PROTO_UDP}
    ensures TransportReply(d, 20 + options, total, proto, Number(src), Number(dst)) ==
            Some(ServerReply(total, proto, src, dst, options, t))
  {
    LoadBehind(d, t, 34 + options, 0);
    LoadBehind(d, t, 34 + options, 2);
    LoadBehind(d, t, 34 + options, 4);
  }

  lemma CandidateReply(cfg: DataplaneConfig, d: seq<byte>, ihl: nat)
    requires WellFormed(cfg) && Ipv4Candidate(cfg, d) && d[14] % 16 * 4 == ihl
    ensures ReplyFlow(cfg, d) == TransportReply(d, ihl, WordAt(d, 16), d[23], AddressAt(d, 26), AddressAt(d, 30))
  {
  }

  // ---------- the configuration of the examples ----------

  const SERVER: Addr4 := [198, 51, 100, 2]
  const EXTERNAL: Addr4 := [203, 0, 113, 10]

  /** One pool address, a range of ports, no expiry. */
  function Config(lo: u16, hi: u16): (cfg: DataplaneConfig)
    ensures WellFormed(cfg) && cfg.portMin == lo && cfg.portMax == hi && cfg.sessionTimeoutSecs == 0
    ensures cfg.v4PoolLen == 1 && cfg.v4Pool[0] == Number(EXTERNAL) && cfg.prefix96 == WELL_KNOWN_PREFIX
  {
    DataplaneConfig(WELL_KNOWN_PREFIX, [Number(EXTERNAL)] + seq(15, _ => 0), 1, lo, hi, 0, 1, 2)
  }

  lemma OneAddressSelected(vm: Addr6, lo: u16, hi: u16)
    ensures Selected(vm, Config(lo, hi)) == Some(Number(EXTERNAL)) && V4InPool(Number(EXTERNAL), Config(lo, hi))
  {
  }

  function Client(host: byte): Addr6 {
    [0xfd] + Zeros(14) + [host]
  }

  function Server6(): Addr6 {
    WELL_KNOWN_PREFIX + SERVER
  }

  /** From port 1000 to port 80; a UDP length of 20. */
  predicate FirstWords(t: seq<byte>) {
    |t| >= 6 && WordAt(t, 0) == 1000 && WordAt(t, 2) == 80 && WordAt(t, 4) == 20
  }

  /** This host's first packet, cut off after `t`. */
  function FirstPacket(host: byte, proto: byte, t: seq<byte>): seq<byte> {
    ClientFrame(Client(host), Server6(), proto, 20, t)
  }

  function FirstFlow(host: byte, proto: byte, len: u16): Flow {
    Flow(FwdKey(Client(host), Number(SERVER), 1000, 80, proto), Server6(), Number(EXTERNAL), len)
  }

  lemma FirstPacketFlow(host: byte, proto: byte, t: seq<byte>, lo: u16, hi: u16)
    requires proto in {PROTO_TCP, PROTO_UDP} && FirstWords(t)
    ensures ForwardFlow(Config(lo, hi), FirstPacket(host, proto, t)) == Some(FirstFlow(host, proto, 20))
    ensures |FirstPacket(host, proto, t)| == 54 + |t|
  {
    OneAddressSelected(Client(host), lo, hi);
    assert Server6()[..12] == WELL_KNOWN_PREFIX;
    ClientFrameFlow(Config(lo, hi), Client(host), Server6(), proto, 20, t);
    ClientFrameFields(Client(host), Server6(), proto, 20, t);
  }

  // ---------- one external tuple for two clients ----------

  /** An allocator that has not handed out a port yet. */
  function FreshCpu(): (st: PA.State)
    ensures PA.ValidState(st)
  {
    PA.State(true, 0, Some(PA.Ring(0, seq(COOLDOWN_SIZE, _ => 0))))
  }

  lemma FreshCpuPort(c: PA.Call)
    requires 0 < c.portMin < c.portMax && c.taken == {}
    ensures PA.Alloc(FreshCpu(), c).1 == PA.Allocated(c.portMin + 1)
  {
    var st := FreshCpu();
    var next := st.(cursor := WrappingAdd32(st.cursor, 1));
    assert next.cursor == 1;
    OneModulo(PA.Span(c));
    assert PA.Candidate(c, next.cursor) == c.portMin + 1;
    assert PA.Free(st, c, c.portMin + 1);
  }

  lemma OneModulo(n: nat)
    requires n >= 2
    ensures 1 % n == 1
  {
    RemainderIs(1, 0, 1, n);
  }

  /** A helper never fails. */
  predicate Faultless(env: ForwardEnv) {
    && !env.changeProtoFails && env.csum == NoFault && env.faults == NO_FAULTS && !env.natInsertFails
  }

  /** A frame too short for its checksum field gets a mapping but no reverse entry. */
  lemma CutShort(cfg: DataplaneConfig, counting: bool, f: Flow, t: Tables, d: seq<byte>, now: nat, gen: u32,
                 env: ForwardEnv,
                 o: PA.Outcome, t': Tables, d': seq<byte>, action: Action, outcome: ForwardOutcome,
                 c: C.Counters, cpu': PA.State, c': C.Counters)
    requires WellFormed(cfg) && 0 < cfg.portMin < cfg.portMax && Faultless(env)
    requires ForwardFlow(cfg, d) == Some(f) && |d| < 54 + FieldOf(f.key.proto) + 2
    requires f.key !in t.fwd && t.nat_ == map[]
    requires ForwardResult(cfg, t, d, now, gen, env, o, t', d', action, outcome)
    requires Accounted(cfg, counting, Some(f), t, FreshCpu(), c, o, outcome, cpu', c')
    ensures outcome.Stopped? && t'.nat_ == map[] && f.key in t'.fwd && t'.fwd - {f.key} == t.fwd
    ensures t'.fwd[f.key].extV4 == f.selected && t'.fwd[f.key].extPort == cfg.portMin + 1
  {
    FlowNotShort(cfg, d);
    ReachesLookup(cfg, f, t, d, now, gen, env, o, t', d', action, outcome);
    FreshAnswer(cfg, counting, f.key, f.selected, t, c, o, MappingIn(outcome), cpu', c');
    CutShortFlow(cfg, f, t, d, now, gen, env, cfg.portMin + 1, t', d', action, outcome);
  }

  lemma ReachesLookup(cfg: DataplaneConfig, f: Flow, t: Tables, d: seq<byte>, now: nat, gen: u32, env: ForwardEnv,
                      o: PA.Outcome, t': Tables, d': seq<byte>, action: Action, outcome: ForwardOutcome)
    requires Faultless(env) && ResultFor(cfg, Some(f), false, t, d, now, gen, env, o, t', d', action, outcome)
    ensures !outcome.Untouched? && !outcome.Truncated? && FlowResult(cfg, f, t, d, now, gen, env, o, t', d', action,
                                                                     outcome)
  {
  }

  lemma FreshAnswer(cfg: DataplaneConfig, counting: bool, key: FwdKey, selected: u32, t: Tables, c: C.Counters,
                    o: PA.Outcome, m: Option<Mapping>, cpu': PA.State, c': C.Counters)
    requires 0 < cfg.portMin < cfg.portMax && key !in t.fwd && t.nat_ == map[]
    requires LookedUp(cfg, counting, key, selected, t, FreshCpu(), c, o, m, cpu', c')
    ensures o == PA.Allocated(cfg.portMin + 1)
  {
    var call := PA.Call(cfg.portMin, cfg.portMax, PA.Taken(t.nat_, selected, key.proto));
    assert call.taken == {};
    FreshCpuPort(call);
  }

  lemma CutShortFlow(cfg: DataplaneConfig, f: Flow, t: Tables, d: seq<byte>, now: nat, gen: u32, env: ForwardEnv,
                     port: u16, t': Tables, d': seq<byte>, action: Action, outcome: ForwardOutcome)
    requires Faultless(env) && |d| < 54 + FieldOf(f.key.proto) + 2 && f.key !in t.fwd
    requires FlowResult(cfg, f, t, d, now, gen, env, PA.Allocated(port), t', d', action, outcome)
    ensures outcome.Stopped? && t'.nat_ == t.nat_ && f.key in t'.fwd && t'.fwd - {f.key} == t.fwd
    ensures t'.fwd[f.key].extV4 == f.selected && t'.fwd[f.key].extPort == port
  {
  }

  /** Two clients whose first packets, at the same time or not, are cut off between their
      ports and their checksum field, on two CPUs that have not handed out a port yet: no
      helper fails, each port is collision-checked, and both get the same external tuple. */
  lemma TruncatedFramesShareTuple(
    cfg: DataplaneConfig, counting: bool, f1: Flow, f2: Flow, d1: seq<byte>, d2: seq<byte>,
    now1: nat, gen1: u32, env1: ForwardEnv, o1: PA.Outcome, t1: Tables, d1': seq<byte>,
    a1: Action, out1: ForwardOutcome,
    now2: nat, gen2: u32, env2: ForwardEnv, o2: PA.Outcome, t2: Tables, d2': seq<byte>,
    a2: Action, out2: ForwardOutcome,
    c0: C.Counters, cpu1: PA.State, c1: C.Counters, cpu2: PA.State, c2: C.Counters)
    requires WellFormed(cfg) && 0 < cfg.portMin < cfg.portMax && Faultless(env1) && Faultless(env2)
    requires ForwardFlow(cfg, d1) == Some(f1) && |d1| < 54 + FieldOf(f1.key.proto) + 2
    requires ForwardFlow(cfg, d2) == Some(f2) && |d2| < 54 + FieldOf(f2.key.proto) + 2
    requires f1.key != f2.key && f1.key.proto == f2.key.proto && f1.selected == f2.selected
    requires ForwardResult(cfg, Tables(map[], map[]), d1, now1, gen1, env1, o1, t1, d1', a1, out1)
    requires Accounted(cfg, counting, Some(f1), Tables(map[], map[]), FreshCpu(), c0, o1, out1, cpu1, c1)
    requires ForwardResult(cfg, t1, d2, now2, gen2, env2, o2, t2, d2', a2, out2)
    requires Accounted(cfg, counting, Some(f2), t1, FreshCpu(), c1, o2, out2, cpu2, c2)
    ensures f1.key in t2.fwd && f2.key in t2.fwd && ExtKey(f1.key, t2.fwd[f1.key]) == ExtKey(f2.key, t2.fwd[f2.key])
    ensures !Inverse(t2)
  {
    CutShort(cfg, counting, f1, Tables(map[], map[]), d1, now1, gen1, env1, o1, t1, d1', a1, out1, c0, cpu1, c1);
    assert f2.key !in t1.fwd - {f1.key};
    CutShort(cfg, counting, f2, t1, d2, now2, gen2, env2, o2, t2, d2', a2, out2, c1, cpu2, c2);
    assert f1.key in t2.fwd - {f2.key} && (t2.fwd - {f2.key})[f1.key] == t1.fwd[f1.key];
    assert ExtKey(f1.key, t2.fwd[f1.key]) !in t2.nat_;
  }

  /** Such frames exist: TCP, from two hosts behind one pool address, 60 bytes each. */
  lemma TruncatedFramesExist(u: seq<byte>, lo: u16, hi: u16)
    requires u == [0x03, 0xE8, 0, 80, 0, 20]
    ensures var d1, d2 := FirstPacket(1, PROTO_TCP, u), FirstPacket(2, PROTO_TCP, u);
            var f1, f2 := FirstFlow(1, PROTO_TCP, 20), FirstFlow(2, PROTO_TCP, 20);
            && |d1| == 60 && |d2| == 60
            && ForwardFlow(Config(lo, hi), d1) == Some(f1) && ForwardFlow(Config(lo, hi), d2) == Some(f2)
            && f1.key != f2.key && f1.selected == f2.selected
  {
    assert FirstWords(u);
    FirstPacketFlow(1, PROTO_TCP, u, lo, hi);
    FirstPacketFlow(2, PROTO_TCP, u, lo, hi);
    DifferentClients();
  }

  lemma DifferentClients()
    ensures Client(1) != Client(2)
  {
    assert Client(1)[15] != Client(2)[15];
  }

  // ---------- passed on, but not unchanged ----------

  /** A UDP frame of 60 bytes is stripped and passed on as soon as it has its mapping,
      although nothing fails. */
  lemma ShortUdpPassedStripped(u: seq<byte>, t: Tables, now: nat, gen: u32, env: ForwardEnv, o: PA.Outcome,
                               t': Tables, d': seq<byte>, action: Action, outcome: ForwardOutcome)
    requires Faultless(env) && FirstWords(u) && |u| == 6
    requires ForwardResult(Config(20000, 60000), t, FirstPacket(1, PROTO_UDP, u), now, gen, env, o, t', d', action,
                           outcome)
    ensures action == Pipe
    ensures d' == FirstPacket(1, PROTO_UDP, u) <==> FirstFlow(1, PROTO_UDP, 20).key !in t.fwd && !o.Allocated?
  {
    FirstPacketFlow(1, PROTO_UDP, u, 20000, 60000);
    ShortPassed(Config(20000, 60000), FirstFlow(1, PROTO_UDP, 20), t, FirstPacket(1, PROTO_UDP, u), now, gen, env, o,
                t', d', action, outcome);
  }

  lemma ShortPassed(cfg: DataplaneConfig, f: Flow, t: Tables, d: seq<byte>, now: nat, gen: u32, env: ForwardEnv,
                    o: PA.Outcome, t': Tables, d': seq<byte>, action: Action, outcome: ForwardOutcome)
    requires WellFormed(cfg) && ForwardFlow(cfg, d) == Some(f) && f.key.proto == PROTO_UDP && |d| < 62 && Faultless(env)
    requires ForwardResult(cfg, t, d, now, gen, env, o, t', d', action, outcome)
    ensures action == Pipe && (d' == d <==> f.key !in t.fwd && !o.Allocated?)
  {
    FlowNotShort(cfg, d);
    ResultLength(cfg, Some(f), false, t, d, now, gen, env, o, t', d', action, outcome);
  }

  /** With a one-port range, which validation accepts, a new TCP flow is refused its mapping
      and its packet is passed on without its IPv6 header. */
  lemma OnePortTcpPassedStripped(port: u16, u: seq<byte>, t: Tables, now: nat, gen: u32, env: ForwardEnv, o: PA.Outcome,
                                 t': Tables, d': seq<byte>, action: Action, outcome: ForwardOutcome,
                                 counting: bool, cpu: PA.State, c: C.Counters, cpu': PA.State, c': C.Counters)
    requires Faultless(env) && PA.ValidState(cpu) && FirstWords(u) && FirstFlow(1, PROTO_TCP, 20).key !in t.fwd
    requires ForwardResult(Config(port, port), t, FirstPacket(1, PROTO_TCP, u), now, gen, env, o, t', d', action,
                           outcome)
    requires Accounted(Config(port, port), counting, Some(FirstFlow(1, PROTO_TCP, 20)), t, cpu, c, o, outcome, cpu', c')
    ensures outcome == Refused && action == Pipe && t' == t && d' != FirstPacket(1, PROTO_TCP, u)
  {
    FirstPacketFlow(1, PROTO_TCP, u, port, port);
    OnePortRefused(Config(port, port), FirstFlow(1, PROTO_TCP, 20), t, FirstPacket(1, PROTO_TCP, u), now, gen, env, o,
                   t', d', action, outcome, counting, cpu, c, cpu', c');
  }

  lemma OnePortRefused(cfg: DataplaneConfig, f: Flow, t: Tables, d: seq<byte>, now: nat, gen: u32, env: ForwardEnv,
                       o: PA.Outcome, t': Tables, d': seq<byte>, action: Action, outcome: ForwardOutcome,
                       counting: bool, cpu: PA.State, c: C.Counters, cpu': PA.State, c': C.Counters)
    requires WellFormed(cfg) && cfg.portMin == cfg.portMax && PA.ValidState(cpu) && f.key !in t.fwd && Faultless(env)
    requires ForwardFlow(cfg, d) == Some(f) && f.key.proto == PROTO_TCP
    requires ForwardResult(cfg, t, d, now, gen, env, o, t', d', action, outcome)
    requires Accounted(cfg, counting, Some(f), t, cpu, c, o, outcome, cpu', c')
    ensures outcome == Refused && action == Pipe && t' == t && d' != d
  {
    FlowNotShort(cfg, d);
    ResultLength(cfg, Some(f), false, t, d, now, gen, env, o, t', d', action, outcome);
    PA.OnePortRangeNeverAllocates(cpu, PA.Call(cfg.portMin, cfg.portMax, PA.Taken(t.nat_, f.selected, f.key.proto)), 0);
  }

  lemma OnePortRangeAccepted(port: u16)
    requires port > 0
    ensures Validate(Policy(WELL_KNOWN_PREFIX, [Number(EXTERNAL)], port, port, None)) == Accepted
    ensures Installable(Policy(WELL_KNOWN_PREFIX, [Number(EXTERNAL)], port, port, None), Config(port, port))
  {
    assert Config(port, port).v4Pool[..1] == [Number(EXTERNAL)];
  }

  // ---------- replies ----------

  /** A UDP reply without data. */
  function UdpReply(u: seq<byte>): seq<byte> {
    ServerFrame(0x45, 28, PROTO_UDP, SERVER, EXTERNAL, [], u)
  }

  /** From port 80 to external port 20001; a UDP length of 8. */
  predicate ReplyWords(u: seq<byte>) {
    |u| >= 8 && WordAt(u, 0) == 80 && WordAt(u, 2) == 20001 && WordAt(u, 4) == 8
  }

  lemma ReplyWordsExist(check: u16)
    ensures var u := [0, 80, 0x4E, 0x21, 0, 8] + Be16Bytes(check); ReplyWords(u) && WordAt(u, 6) == check
  {
  }

  lemma UdpReplyFlow(u: seq<byte>)
    requires ReplyWords(u)
    ensures |UdpReply(u)| == 34 + |u| && UdpReply(u)[34..] == u
    ensures ReplyFlow(Config(20000, 60000), UdpReply(u)) ==
            Some(Reply(NatKey(Number(EXTERNAL), 20001, PROTO_UDP), Number(SERVER), 80, 8, 34))
  {
    OneAddressSelected(Client(1), 20000, 60000);
    ServerFrameReply(Config(20000, 60000), 0x45, 28, PROTO_UDP, SERVER, EXTERNAL, [], u);
  }

  /** The fate of that reply, when its session lives and nothing fails: whatever checksum
      `WordAt(u, 6)` it carries, zero or not, it is delivered exactly when the client's
      address does not have two zero bytes where the test looks. */
  lemma ChecksumDoesNotDecide(u: seq<byte>, t: Tables, now: nat, env: ReverseEnv, t': Tables, d': seq<byte>,
                              action: Action,
                              outcome: ReverseOutcome)
    requires ReplyWords(u) && |env.filler| == 20 && !env.changeProtoFails && env.csum == NoFault
    requires var n := NatKey(Number(EXTERNAL), 20001, PROTO_UDP);
             n in t.nat_ && t.nat_[n].remoteV4 == Number(SERVER) && t.nat_[n].remotePort == 80
    requires ReverseResult(Config(20000, 60000), t, UdpReply(u), now, env, t', d', action, outcome)
    ensures var v := t.nat_[NatKey(Number(EXTERNAL), 20001, PROTO_UDP)];
            outcome.Delivered? <==> Be16(v.vmV6[2], v.vmV6[3]) != 0
  {
    UdpReplyFlow(u);
    var r := Reply(NatKey(Number(EXTERNAL), 20001, PROTO_UDP), Number(SERVER), 80, 8, 34);
    assert Validated(t, r.n, r.src, r.srcPort);
    DeliveredIffArrives(Config(20000, 60000), r, t, UdpReply(u), now, env, t', d', action, outcome);
    ZeroTestReadsClientAddress(UdpReply(u), r, t'.nat_[r.n], env);
  }

  lemma DeliveredIffArrives(cfg: DataplaneConfig, r: Reply, t: Tables, d: seq<byte>, now: nat, env: ReverseEnv,
                            t': Tables, d': seq<byte>, action: Action, outcome: ReverseOutcome)
    requires ReplyResult(cfg, r, t, d, now, env, t', d', action, outcome) && Validated(t, r.n, r.src, r.srcPort)
    ensures r.n in t'.nat_ && t'.nat_[r.n].vmV6 == t.nat_[r.n].vmV6
    ensures outcome.Delivered? <==> Arrives(d, r, t'.nat_[r.n], env)
    ensures outcome.Delivered? ==> ReverseRewritten(d, d', r, t'.nat_[r.n]) && outcome.val.vmPort == t.nat_[r.n].vmPort
                                   && outcome.val == t'.nat_[r.n]
  {
  }

  /** A TCP reply behind four bytes of options. */
  function OptionsReply(u: seq<byte>): seq<byte> {
    ServerFrame(0x46, 44, PROTO_TCP, SERVER, EXTERNAL, Zeros(4), u)
  }

  lemma OptionsReplyFlow(u: seq<byte>)
    requires ReplyWords(u)
    ensures |OptionsReply(u)| == 38 + |u| && OptionsReply(u)[34..] == Zeros(4) + u && OptionsReply(u)[38..] == u
    ensures ReplyFlow(Config(20000, 60000), OptionsReply(u)) ==
            Some(Reply(NatKey(Number(EXTERNAL), 20001, PROTO_TCP), Number(SERVER), 80, 20, 38))
  {
    OneAddressSelected(Client(1), 20000, 60000);
    ServerFrameReply(Config(20000, 60000), 0x46, 44, PROTO_TCP, SERVER, EXTERNAL, Zeros(4), u);
  }

  /** It is delivered whenever its session lives and nothing fails, and what the client reads
      is never its own packet mirrored, whatever its port: the source port is read from the
      options, as 0 and not 80. */
  lemma OptionsReplyNotMirrored(u: seq<byte>, client: seq<byte>, f: Flow, t: Tables, now: nat, env: ReverseEnv,
                                t': Tables, d': seq<byte>, action: Action, outcome: ReverseOutcome)
    requires ReplyWords(u) && |u| >= 20 && |env.filler| == 20 && !env.changeProtoFails && env.csum == NoFault
    requires ForwardFlow(Config(20000, 60000), client) == Some(f)
    requires EntryLives(t, f.key, Mapping(Number(EXTERNAL), 20001, 0))
    requires f.key.proto == PROTO_TCP && f.key.remoteV4 == Number(SERVER) && f.key.remotePort == 80
    requires ReverseResult(Config(20000, 60000), t, OptionsReply(u), now, env, t', d', action, outcome)
    ensures outcome.Delivered? && !Mirrored(client, d')
  {
    OptionsReplyFlow(u);
    var r := Reply(NatKey(Number(EXTERNAL), 20001, PROTO_TCP), Number(SERVER), 80, 20, 38);
    assert Validated(t, r.n, r.src, r.srcPort);
    DeliveredIffArrives(Config(20000, 60000), r, t, OptionsReply(u), now, env, t', d', action, outcome);
    RefreshedClient(t, r, now, f.key);
    LoadBehind(OptionsReply(u), Zeros(4) + u, 34, 0);
    MirroredIffPortsLead(Config(20000, 60000), client, f, OptionsReply(u), r, t'.nat_[r.n], d');
  }

  lemma RefreshedClient(t: Tables, r: Reply, now: nat, key: FwdKey)
    requires Validated(t, r.n, r.src, r.srcPort) && ClientKey(r.n, t.nat_[r.n]) == key
    ensures var t' := Reverse(t, r.n, r.src, r.srcPort, now); r.n in t'.nat_ && ClientKey(r.n, t'.nat_[r.n]) == key
  {
  }

  /** Behind the options, where the client does not look, its header still carries the
      external port. */
  lemma OptionsReplyKeepsExternalPort(u: seq<byte>, t: Tables, now: nat, env: ReverseEnv, t': Tables, d': seq<byte>,
                                      action: Action, outcome: ReverseOutcome)
    requires ReplyWords(u) && |u| >= 20 && |env.filler| == 20 && !env.changeProtoFails && env.csum == NoFault
    requires var n := NatKey(Number(EXTERNAL), 20001, PROTO_TCP);
             n in t.nat_ && t.nat_[n].remoteV4 == Number(SERVER) && t.nat_[n].remotePort == 80
    requires ReverseResult(Config(20000, 60000), t, OptionsReply(u), now, env, t', d', action, outcome)
    ensures outcome.Delivered? && |d'| >= 62
    ensures WordAt(d', 60) == t.nat_[NatKey(Number(EXTERNAL), 20001, PROTO_TCP)].vmPort <==>
            t.nat_[NatKey(Number(EXTERNAL), 20001, PROTO_TCP)].vmPort == 20001
  {
    OptionsReplyFlow(u);
    LoadBehind(OptionsReply(u), u, 38, 2);
    var r := Reply(NatKey(Number(EXTERNAL), 20001, PROTO_TCP), Number(SERVER), 80, 20, 38);
    assert Validated(t, r.n, r.src, r.srcPort);
    DeliveredIffArrives(Config(20000, 60000), r, t, OptionsReply(u), now, env, t', d', action, outcome);
    OptionsMisplaceThePort(OptionsReply(u), d', r, t'.nat_[r.n]);
  }

  /** Under another prefix the reply does not come from the address the client sent to. */
  lemma OtherPrefixNotRestored(prefix96: seq<byte>)
    requires |prefix96| == 12
    ensures Nat64SourceV6(EmbeddedV4(prefix96 + SERVER)) == prefix96 + SERVER <==> prefix96 == WELL_KNOWN_PREFIX
  {
    SourceUndoesEmbedding(prefix96 + SERVER);
  }

  // ---------- a datagram without its checksum ----------

  /** A UDP datagram from port 1000 to port 80 with checksum 0x8942 and twelve bytes of data. */
  function Datagram(): seq<byte> {
    [0x03, 0xE8, 0, 80, 0, 20, 0x89, 0x42, 0x4B, 0x14] + Zeros(10)
  }

  lemma {:induction false} ZerosSum(n: nat)
    ensures WordSum(Zeros(n)) == 0
  {
    if n >= 2 {
      assert Zeros(n)[2..] == Zeros(n - 2);
      ZerosSum(n - 2);
    }
  }

  lemma {:induction false} TwoMore(hi: byte, lo: byte, rest: seq<byte>)
    ensures WordSum([hi, lo] + rest) == Be16(hi, lo) + WordSum(rest)
  {
    WordSumPair(hi, lo);
    WordSumConcat([hi, lo], rest);
  }

  lemma {:induction false} DatagramSum()
    ensures |Datagram()| == 20 && FirstWords(Datagram()) && WordAt(Datagram(), 6) == 0x8942
    ensures WordSum(Datagram()) == 55458
  {
    var z := Zeros(10);
    ZerosSum(10);
    TwoMore(0x4B, 0x14, z);
    TwoMore(0x89, 0x42, [0x4B, 0x14] + z);
    TwoMore(0, 20, [0x89, 0x42] + ([0x4B, 0x14] + z));
    TwoMore(0, 80, [0, 20] + ([0x89, 0x42] + ([0x4B, 0x14] + z)));
    TwoMore(0x03, 0xE8, [0, 80] + ([0, 20] + ([0x89, 0x42] + ([0x4B, 0x14] + z))));
    assert Datagram() == [0x03, 0xE8] + ([0, 80] + ([0, 20] + ([0x89, 0x42] + ([0x4B, 0x14] + z))));
  }

  lemma {:induction false} ClientSum()
    ensures WordSum(Client(1)) == 64769
  {
    var z := Zeros(12);
    ZerosSum(12);
    WordSumConcat(z, [0, 1]);
    TwoMore(0xfd, 0, z + [0, 1]);
    WordSumPair(0, 1);
    assert Client(1) == [0xfd, 0] + (z + [0, 1]);
  }

  lemma {:induction false} Server4Sums()
    ensures WordSum(SERVER) == 76341 && WordSum(EXTERNAL) == 80906
  {
    Words4Sum(SERVER);
    Words4Sum(EXTERNAL);
  }

  lemma {:induction false} Server6Sum()
    ensures WordSum(Server6()) == 141876
  {
    var z, server := Zeros(8), SERVER;
    Server4Sums();
    ZerosSum(8);
    WordSumConcat(z, server);
    TwoMore(0xff, 0x9b, z + server);
    TwoMore(0x00, 0x64, [0xff, 0x9b] + (z + server));
    assert Server6() == [0x00, 0x64] + ([0xff, 0x9b] + (z + server));
  }

  lemma {:induction false} PseudoSums()
    ensures WordSum(Ipv6Pseudo(Client(1), Server6(), 20, PROTO_UDP)) == 206682
    ensures WordSum(Ipv4Pseudo(Number(EXTERNAL), Number(SERVER), 20, PROTO_UDP)) == 157284
  {
    ClientSum();
    Server6Sum();
    Server4Sums();
    Ipv6PseudoSum(Client(1), Server6(), 20, PROTO_UDP);
    Ipv4PseudoSum(Number(EXTERNAL), Number(SERVER), 20, PROTO_UDP);
    Be32BytesInverse(SERVER[0], SERVER[1], SERVER[2], SERVER[3]);
    Be32BytesInverse(EXTERNAL[0], EXTERNAL[1], EXTERNAL[2], EXTERNAL[3]);
    assert SERVER == [SERVER[0], SERVER[1], SERVER[2], SERVER[3]];
    assert EXTERNAL == [EXTERNAL[0], EXTERNAL[1], EXTERNAL[2], EXTERNAL[3]];
  }

  /** It verifies as the client sends it. */
  lemma {:induction false} DatagramVerifies()
    ensures Verifies(Ipv6Pseudo(Client(1), Server6(), 20, PROTO_UDP), Datagram())
  {
    DatagramSum();
    PseudoSums();
    WordSumConcat(Ipv6Pseudo(Client(1), Server6(), 20, PROTO_UDP), Datagram());
    CongruentBy(262140, 0, 4);
    FoldAllOnes(262140);
  }

  /** The client's frame verifies and carries a checksum; translated by a fresh allocator,
      with no fault, to 203.0.113.10 port 20001, it leaves without one. */
  lemma DatagramLosesItsChecksum(now: nat, gen: u32, env: ForwardEnv, o: PA.Outcome, t': Tables, out: seq<byte>,
                                 action: Action, outcome: ForwardOutcome, counting: bool, c: C.Counters,
                                 cpu': PA.State, c': C.Counters)
    requires Faultless(env)
    requires ForwardResult(Config(20000, 60000), Tables(map[], map[]), FirstPacket(1, PROTO_UDP, Datagram()), now,
                           gen, env,
                           o, t', out, action, outcome)
    requires Accounted(Config(20000, 60000), counting, Some(FirstFlow(1, PROTO_UDP, 20)), Tables(map[], map[]),
                       FreshCpu(),
                       c, o, outcome, cpu', c')
    ensures outcome.Translated? && |out| == 54 && WordAt(out, 40) == 0
  {
    var cfg, f, d := Config(20000, 60000), FirstFlow(1, PROTO_UDP, 20), FirstPacket(1, PROTO_UDP, Datagram());
    DatagramSum();
    FirstPacketFlow(1, PROTO_UDP, Datagram(), 20000, 60000);
    ClientFrameFields(Client(1), Server6(), PROTO_UDP, 20, Datagram());
    FlowNotShort(cfg, d);
    ReachesLookup(cfg, f, Tables(map[], map[]), d, now, gen, env, o, t', out, action, outcome);
    FreshAnswer(cfg, counting, f.key, f.selected, Tables(map[], map[]), c, o, MappingIn(outcome), cpu', c');
    FreshTranslated(cfg, f, Tables(map[], map[]), d, now, gen, env, 20001, t', out, action, outcome);
    LoadBehind(d, Datagram(), 54, 6);
    ZeroStored(d, out, f, outcome.mapping);
  }

  lemma FreshTranslated(cfg: DataplaneConfig, f: Flow, t: Tables, d: seq<byte>, now: nat, gen: u32, env: ForwardEnv,
                        port: u16, t': Tables, d': seq<byte>, action: Action, outcome: ForwardOutcome)
    requires Faultless(env) && |d| >= 54 + FieldOf(f.key.proto) + 2 && f.key !in t.fwd
    requires FlowResult(cfg, f, t, d, now, gen, env, PA.Allocated(port), t', d', action, outcome)
    ensures outcome.Translated? && ForwardRewritten(d, d', f, outcome.mapping)
    ensures outcome.mapping.extV4 == f.selected && outcome.mapping.extPort == port
  {
  }

  lemma ZeroStored(d: seq<byte>, out: seq<byte>, f: Flow, m: Mapping)
    requires f == FirstFlow(1, PROTO_UDP, 20) && m.extV4 == Number(EXTERNAL) && m.extPort == 20001
    requires |d| == 74 && WordAt(d, 54) == 1000 && WordAt(d, 60) == 0x8942 && ForwardRewritten(d, out, f, m)
    ensures WordAt(out, 40) == 0
  {
    PseudoSums();
    var after := WordAt(out, 40);
    assert WordAt(out[34..], 6) == after && WordAt(d[54..], 6) == 0x8942 && WordAt(d[54..], 0) == 1000;
    StoredResidue(after, 157284, 20001, 0x8942, 206682, 1000);
  }

  lemma StoredResidue(after: u16, newSum: int, newPort: int, before: int, oldSum: int, oldPort: int)
    requires Congruent(after + newSum + newPort, before + oldSum + oldPort) && after != 0xFFFF
    requires before + oldSum + oldPort - newSum - newPort == 0xFFFF
    ensures after == 0
  {
    var q := Quotient(after + newSum + newPort, before + oldSum + oldPort);
    var a: int := after;
    assert a == 0xFFFF * (q + 1);
  }

  /** Whatever else a datagram holds, some data word makes its right checksum 0xFFFF, and
      a datagram that verified is then left with zero: the frame above is one of many. */
  lemma SomeChecksumIsAllOnes(pseudo: seq<byte>, datagram: seq<byte>) returns (w: u16)
    requires |pseudo| % 2 == 0 && WordSum(pseudo) > 0 && |datagram| >= 10
    ensures TransportChecksum(pseudo, SetWord(datagram, 8, w), UDP_FIELD) == 0xFFFF
  {
    var zeroed := ZeroField(SetWord(datagram, 8, 0), 6);
    w := ClosingWord(WordSum(pseudo) + WordSum(zeroed));
    ClosedChecksum(pseudo, zeroed, w);
    assert ZeroField(SetWord(datagram, 8, w), 6) == SetWord(zeroed, 8, w);
  }

  lemma {:induction false} ClosedChecksum(pseudo: seq<byte>, zeroed: seq<byte>, w: u16)
    requires |pseudo| % 2 == 0 && WordSum(pseudo) > 0 && |zeroed| >= 10 && WordAt(zeroed, 8) == 0
    requires Congruent(WordSum(pseudo) + WordSum(zeroed) + w, 0)
    ensures NonZero(Complement(FlatSum(pseudo + SetWord(zeroed, 8, w)))) == 0xFFFF
  {
    ClosedSum(WordSum(pseudo), zeroed, 8, w);
    WordSumConcat(pseudo, SetWord(zeroed, 8, w));
  }

  lemma {:induction false} ClosedSum(before: nat, zeroed: seq<byte>, at: nat, w: u16)
    requires before > 0 && at % 2 == 0 && at + 2 <= |zeroed| && WordAt(zeroed, at) == 0
    requires Congruent(before + WordSum(zeroed) + w, 0)
    ensures Fold(before + WordSum(SetWord(zeroed, at, w))) == 0xFFFF
  {
    WordSumSet(zeroed, at, w);
    FoldAllOnes(before + WordSum(zeroed) + w);
  }

  lemma ClosingWord(sum: nat) returns (w: u16)
    ensures Congruent(sum + w, 0)
  {
    var s: int := sum;
    w := (0 - s) % 0xFFFF;
    CongruentIsRemainder(s + w, 0);
  }
}
