/** A client's packet out and the remote's reply back, and the places where the code as
    written does not give that. */
module RoundTrip {
  import opened Words
  import opened OnesComplement
  import opened Checksum
  import opened Headers
  import opened Abi
  import opened Pool
  import PA = PortAllocator
  import opened NatTables
  import opened Packets
  import opened Translation
  import opened Dataplane

  /** The remote answers a translated packet: an IPv4 packet without options, addresses and
      ports the other way round; everything else is the remote's own. */
  predicate Answers(out: seq<byte>, reply: seq<byte>) {
    && |out| >= 38 && |reply| >= 38
    && reply[14] == 0x45 && reply[23] == out[23]
    && reply[26..30] == out[30..34] && reply[30..34] == out[26..30]
    && reply[34..36] == out[36..38] && reply[36..38] == out[34..36]
  }

  lemma LayoutFields(len: Pair, id: Pair, ttlProto: Pair, check: Pair, src: Addr4, dst: Addr4)
    ensures var h := Layout(len, id, ttlProto, check, src, dst);
            h[9] == ttlProto[1] && h[12..16] == src && h[16..20] == dst
  {
  }

  lemma Ipv4WithFields(check: u16, totalLen: u16, id: u16, ttl: byte, proto: byte, src: Addr4, dst: Addr4)
    ensures var h := Ipv4With(check, totalLen, id, ttl, proto, src, dst);
            h[9] == proto && h[12..16] == src && h[16..20] == dst
  {
    LayoutFields(Be16Bytes(totalLen), Be16Bytes(id), [ttl, proto], Be16Bytes(check), src, dst);
  }

  lemma Ipv4HeaderFields(totalLen: u16, id: u16, ttl: byte, proto: byte, src: Addr4, dst: Addr4)
    ensures var h := Ipv4Header(totalLen, id, ttl, proto, src, dst);
            h[9] == proto && h[12..16] == src && h[16..20] == dst
  {
    var check := Complement(FlatSum(Ipv4With(0, totalLen, id, ttl, proto, src, dst)));
    Ipv4WithFields(check, totalLen, id, ttl, proto, src, dst);
  }

  lemma SliceOfSlice(b: seq<byte>, lo: nat, hi: nat, i: nat, j: nat)
    requires lo <= hi <= |b| && i <= j <= hi - lo
    ensures b[lo..hi][i..j] == b[lo + i..lo + j]
  {
    var s, s' := b[lo..hi][i..j], b[lo + i..lo + j];
    assert |s| == |s'| && forall k :: 0 <= k < |s| ==> s[k] == s'[k];
  }

  /** The address stored at `at`. */
  function AddressAt(d: seq<byte>, at: nat): u32
    requires at + 4 <= |d|
  {
    Be32(d[at], d[at + 1], d[at + 2], d[at + 3])
  }

  lemma SameAddress(b: seq<byte>, at: nat, v: u32)
    requires at + 4 <= |b| && b[at..at + 4] == Be32Bytes(v)
    ensures AddressAt(b, at) == v
  {
    var s := b[at..at + 4];
    assert s[0] == b[at] && s[1] == b[at + 1] && s[2] == b[at + 2] && s[3] == b[at + 3];
  }

  lemma SameWord(b: seq<byte>, at: nat, c: seq<byte>, to: nat)
    requires at + 2 <= |b| && to + 2 <= |c|
    ensures b[at..at + 2] == c[to..to + 2] <==> WordAt(b, at) == WordAt(c, to)
  {
    var s, s' := b[at..at + 2], c[to..to + 2];
    assert s == [b[at], b[at + 1]] && s' == [c[to], c[to + 1]];
    Be16BytesInverse(b[at], b[at + 1]);
    Be16BytesInverse(c[to], c[to + 1]);
  }

  /** What the translated packet shows on the IPv4 side: its header. */
  lemma OutgoingHeader(out: seq<byte>, len: u16, zero: u16, ttl: byte, proto: byte, src: Addr4, dst: Addr4)
    requires |out| >= 34 && out[14..34] == Ipv4Header(len, zero, ttl, proto, src, dst)
    ensures out[23] == proto && out[26..30] == src && out[30..34] == dst
  {
    Ipv4HeaderFields(len, zero, ttl, proto, src, dst);
    assert out[14..34][9] == out[23];
    SliceOfSlice(out, 14, 34, 12, 16);
    SliceOfSlice(out, 14, 34, 16, 20);
  }

  /** And its ports: the external one, and the remote's as the client wrote it. */
  lemma OutgoingPorts(t: seq<byte>, t': seq<byte>, port: u16, field: nat, oldPseudo: seq<byte>, newPseudo: seq<byte>)
    requires TransportRewritten(t, t', 0, port, field, oldPseudo, newPseudo) && field >= 4
    ensures WordAt(t', 0) == port && WordAt(t', 2) == WordAt(t, 2)
  {
  }

  lemma OutgoingEnds(d: seq<byte>, out: seq<byte>, f: Flow, m: Mapping)
    requires ForwardRewritten(d, out, f, m) && |d| >= 58
    ensures out[23] == f.key.proto
    ensures out[26..30] == Be32Bytes(m.extV4) && out[30..34] == Be32Bytes(f.key.remoteV4)
    ensures WordAt(out, 34) == m.extPort && WordAt(out, 36) == WordAt(d, 56)
  {
    OutgoingHeader(out, f.len + 20, 0, 64, f.key.proto, Be32Bytes(m.extV4), Be32Bytes(f.key.remoteV4));
    OutgoingPorts(d[54..], out[34..], m.extPort, FieldOf(f.key.proto),
                  Ipv6Pseudo(f.key.vmV6, f.dst, f.len, f.key.proto),
                  Ipv4Pseudo(m.extV4, f.key.remoteV4, f.len, f.key.proto));
  }

  lemma FlowFields(cfg: DataplaneConfig, d: seq<byte>, f: Flow)
    requires WellFormed(cfg) && ForwardFlow(cfg, d) == Some(f)
    ensures |d| >= 58 && f.key.vmV6 == d[22..38] && f.dst == d[38..54] && f.key.remoteV4 == EmbeddedV4(f.dst)
    ensures f.key.vmPort == WordAt(d, 54) && f.key.remotePort == WordAt(d, 56)
    ensures f.key.proto in {PROTO_TCP, PROTO_UDP}
  {
    ParseReadsFields(d, 14);
  }

  lemma TransportReplyFields(d: seq<byte>, r: Reply, total: u16, proto: byte, src: u32, dst: u32)
    requires total >= 20 && TransportReply(d, 20, total, proto, src, dst) == Some(r)
    requires proto in {PROTO_TCP, PROTO_UDP}
    ensures |d| >= 38 && r.n == NatKey(dst, WordAt(d, 36), proto)
    ensures r.src == src && r.srcPort == WordAt(d, 34) && r.transportAt == 34
  {
  }

  lemma ReplyFlowFields(cfg: DataplaneConfig, d: seq<byte>, r: Reply)
    requires WellFormed(cfg) && ReplyFlow(cfg, d) == Some(r) && |d| >= 34 && d[14] == 0x45
    ensures |d| >= 38 && r.n == NatKey(AddressAt(d, 30), WordAt(d, 36), d[23])
    ensures r.src == AddressAt(d, 26) && r.srcPort == WordAt(d, 34) && r.transportAt == 34
  {
    TransportReplyFields(d, r, WordAt(d, 16), d[23], Be32(d[26], d[27], d[28], d[29]),
                         Be32(d[30], d[31], d[32], d[33]));
  }

  lemma AnswerEnds(out: seq<byte>, reply: seq<byte>, proto: byte, extV4: u32, extPort: u16, remoteV4: u32,
                   remotePort: u16)
    requires |out| >= 38 && Answers(out, reply)
    requires out[23] == proto && out[26..30] == Be32Bytes(extV4) && out[30..34] == Be32Bytes(remoteV4)
    requires WordAt(out, 34) == extPort && WordAt(out, 36) == remotePort
    ensures reply[23] == proto && AddressAt(reply, 26) == remoteV4 && AddressAt(reply, 30) == extV4
    ensures WordAt(reply, 34) == remotePort && WordAt(reply, 36) == extPort
  {
    SameAddress(reply, 26, remoteV4);
    SameAddress(reply, 30, extV4);
    SameWord(reply, 34, out, 36);
    SameWord(reply, 36, out, 34);
  }

  /** The reply is looked up under the mapping's external tuple, from the flow's remote. */
  lemma ReplyNamesMapping(cfg: DataplaneConfig, d: seq<byte>, out: seq<byte>, f: Flow, m: Mapping, reply: seq<byte>,
                          r: Reply)
    requires WellFormed(cfg) && ForwardFlow(cfg, d) == Some(f) && ForwardRewritten(d, out, f, m)
    requires Answers(out, reply) && ReplyFlow(cfg, reply) == Some(r)
    ensures r.n == NatKey(m.extV4, m.extPort, f.key.proto)
    ensures r.src == f.key.remoteV4 && r.srcPort == f.key.remotePort && r.transportAt == 34
  {
    FlowFields(cfg, d, f);
    OutgoingEnds(d, out, f, m);
    AnswerEnds(out, reply, f.key.proto, m.extV4, m.extPort, f.key.remoteV4, f.key.remotePort);
    ReplyFlowFields(cfg, reply, r);
  }

  /** What else a reply has to be, besides an answer, for the reverse path to look it up. */
  predicate Admissible(cfg: DataplaneConfig, reply: seq<byte>, proto: byte, extV4: u32)
    requires WellFormed(cfg) && |reply| >= 38
  {
    && Load16(reply, 12) == Some(ETH_P_IP) && WordAt(reply, 16) >= 20 && WordAt(reply, 20) % 0x4000 == 0
    && V4InPool(extV4, cfg)
    && if proto == PROTO_TCP then WordAt(reply, 16) - 20 <= MAX_L4_LEN
       else |reply| >= 40 && UDP_HDR_LEN <= WordAt(reply, 38) <= MAX_L4_LEN
            && WordAt(reply, 16) >= 20 + WordAt(reply, 38)
  }

  /** An answer reaches the lookup exactly when it is IPv4, unfragmented, of consistent
      length, and its destination passes the pool filter. */
  lemma AnswerReachesLookup(cfg: DataplaneConfig, d: seq<byte>, out: seq<byte>, f: Flow, m: Mapping, reply: seq<byte>)
    requires WellFormed(cfg) && ForwardFlow(cfg, d) == Some(f) && ForwardRewritten(d, out, f, m) && Answers(out, reply)
    ensures ReplyFlow(cfg, reply).Some? <==> Admissible(cfg, reply, f.key.proto, m.extV4)
  {
    FlowFields(cfg, d, f);
    OutgoingEnds(d, out, f, m);
    AnswerEnds(out, reply, f.key.proto, m.extV4, m.extPort, f.key.remoteV4, f.key.remotePort);
    LookupCondition(cfg, reply, f.key.proto, m.extV4);
  }

  lemma LookupCondition(cfg: DataplaneConfig, reply: seq<byte>, proto: byte, extV4: u32)
    requires WellFormed(cfg) && |reply| >= 38 && reply[14] == 0x45
    requires reply[23] == proto && AddressAt(reply, 30) == extV4
    requires proto in {PROTO_TCP, PROTO_UDP}
    ensures ReplyFlow(cfg, reply).Some? <==> Admissible(cfg, reply, proto, extV4)
  {
  }

  /** The `NAT` entry of the mapping lives and names this client and remote. */
  predicate EntryLives(t: Tables, key: FwdKey, m: Mapping) {
    var n := NatKey(m.extV4, m.extPort, key.proto);
    n in t.nat_ && ClientKey(n, t.nat_[n]) == key
  }

  /** In tables that agree it does, as long as the flow has its mapping. */
  lemma MappedFlowHasEntry(t: Tables, key: FwdKey, m: Mapping)
    requires Inverse(t) && key in t.fwd && t.fwd[key].extV4 == m.extV4 && t.fwd[key].extPort == m.extPort
    ensures EntryLives(t, key, m)
  {
    assert ExtKey(key, t.fwd[key]) == NatKey(m.extV4, m.extPort, key.proto);
  }

  lemma Ipv6HeaderFields(h: seq<byte>, len: u16, proto: byte, hopLimit: byte, src: Addr6, dst: Addr6)
    requires h == Ipv6Header(len, proto, hopLimit, src, dst)
    ensures h[8..24] == src && h[24..40] == dst
  {
  }

  /** What a delivered reply shows on the IPv6 side. */
  lemma DeliveredEnds(reply: seq<byte>, back: seq<byte>, r: Reply, v: NatVal)
    requires ReverseRewritten(reply, back, r, v) && |reply| >= 38
    ensures |back| == |reply| + 20
    ensures back[22..38] == Nat64SourceV6(r.src) && back[38..54] == v.vmV6
    ensures WordAt(back, 54) == WordAt(reply, 34) && WordAt(back, 56) == v.vmPort
  {
    Ipv6HeaderFields(back[14..54], r.len, r.n.proto, 64, Nat64SourceV6(r.src), v.vmV6);
    SliceOfSlice(back, 14, 54, 8, 24);
    SliceOfSlice(back, 14, 54, 24, 40);
    var t, t' := reply[34..], back[54..];
    assert WordAt(t', 0) == WordAt(t, 0) && WordAt(t', 2) == v.vmPort;
    assert WordAt(t', 0) == WordAt(back, 54) && WordAt(t', 2) == WordAt(back, 56) && WordAt(t, 0) == WordAt(reply, 34);
  }

  /** The client's packet seen from the other end: ports swapped and the client as its
      destination; the source is where the client had sent to exactly when that lies under
      the well-known prefix. */
  predicate Mirrored(d: seq<byte>, back: seq<byte>) {
    && |d| >= 58 && |back| >= 58
    && back[38..54] == d[22..38]
    && back[54..56] == d[56..58] && back[56..58] == d[54..56]
    && (back[22..38] == d[38..54] <==> d[38..50] == WELL_KNOWN_PREFIX)
  }

  /** The round trip, first half: the remote's reply to a translated packet is accepted
      while the mapping's entry lives, and the entry names the client. */
  lemma ReplyAccepted(cfg: DataplaneConfig, d: seq<byte>, out: seq<byte>, f: Flow, m: Mapping,
                      reply: seq<byte>, r: Reply, t: Tables)
    requires WellFormed(cfg) && ForwardFlow(cfg, d) == Some(f) && ForwardRewritten(d, out, f, m)
    requires Answers(out, reply) && ReplyFlow(cfg, reply) == Some(r) && EntryLives(t, f.key, m)
    ensures Validated(t, r.n, r.src, r.srcPort) && ClientKey(r.n, t.nat_[r.n]) == f.key
  {
    ReplyNamesMapping(cfg, d, out, f, m, reply, r);
  }

  /** The second half: delivered, it is the mirror image of what the client sent. */
  lemma ReplyReachesClient(cfg: DataplaneConfig, d: seq<byte>, out: seq<byte>, f: Flow, m: Mapping,
                           reply: seq<byte>, r: Reply, v: NatVal, back: seq<byte>)
    requires WellFormed(cfg) && ForwardFlow(cfg, d) == Some(f) && ForwardRewritten(d, out, f, m)
    requires Answers(out, reply) && ReplyFlow(cfg, reply) == Some(r) && ClientKey(r.n, v) == f.key
    requires ReverseRewritten(reply, back, r, v)
    ensures Mirrored(d, back)
  {
    ReplyNamesMapping(cfg, d, out, f, m, reply, r);
    AcceptedMirrors(cfg, d, f, reply, r, v, back);
  }

  /** What a reply to a validated entry becomes: the refreshed entry still names the same client. */
  lemma ValidatedReplies(cfg: DataplaneConfig, r: Reply, t: Tables, reply: seq<byte>, now: nat, env: ReverseEnv,
                         t': Tables, back: seq<byte>, action: Action, outcome: ReverseOutcome, key: FwdKey)
    requires Validated(t, r.n, r.src, r.srcPort) && ClientKey(r.n, t.nat_[r.n]) == key
    requires ReplyResult(cfg, r, t, reply, now, env, t', back, action, outcome)
    ensures outcome != Passed
    ensures outcome.Delivered? ==> ReverseRewritten(reply, back, r, outcome.val) && ClientKey(r.n, outcome.val) == key
  {
  }

  lemma ValidatedMirrors(cfg: DataplaneConfig, d: seq<byte>, out: seq<byte>, f: Flow, m: Mapping,
                         reply: seq<byte>, r: Reply, live: Tables, now: nat, env: ReverseEnv,
                         t': Tables, back: seq<byte>, action: Action, outcome: ReverseOutcome)
    requires Validated(live, r.n, r.src, r.srcPort) && ClientKey(r.n, live.nat_[r.n]) == f.key
    requires ReplyResult(cfg, r, live, reply, now, env, t', back, action, outcome) && outcome.Delivered?
    requires WellFormed(cfg) && ForwardFlow(cfg, d) == Some(f) && ForwardRewritten(d, out, f, m)
    requires Answers(out, reply) && ReplyFlow(cfg, reply) == Some(r)
    ensures Mirrored(d, back)
  {
    ValidatedReplies(cfg, r, live, reply, now, env, t', back, action, outcome, f.key);
    ReplyReachesClient(cfg, d, out, f, m, reply, r, outcome.val, back);
  }

  /** The round trip as the reverse classifier performs it while the entry lives: the reply
      is never passed by. */
  lemma ReplyNeverPassed(cfg: DataplaneConfig, d: seq<byte>, out: seq<byte>, f: Flow, m: Mapping,
                         reply: seq<byte>, r: Reply, live: Tables, now: nat, env: ReverseEnv,
                         t': Tables, back: seq<byte>, action: Action, outcome: ReverseOutcome)
    requires WellFormed(cfg) && ForwardFlow(cfg, d) == Some(f) && ForwardRewritten(d, out, f, m)
    requires Answers(out, reply) && ReplyFlow(cfg, reply) == Some(r) && EntryLives(live, f.key, m)
    requires ReplyResult(cfg, r, live, reply, now, env, t', back, action, outcome)
    ensures outcome != Passed
  {
    ReplyAccepted(cfg, d, out, f, m, reply, r, live);
  }

  /** And delivered, it is the client's packet mirrored. */
  lemma PacketRoundTrip(cfg: DataplaneConfig, d: seq<byte>, out: seq<byte>, f: Flow, m: Mapping,
                        reply: seq<byte>, r: Reply, live: Tables, now: nat, env: ReverseEnv,
                        t': Tables, back: seq<byte>, action: Action, outcome: ReverseOutcome)
    requires WellFormed(cfg) && ForwardFlow(cfg, d) == Some(f) && ForwardRewritten(d, out, f, m)
    requires Answers(out, reply) && ReplyFlow(cfg, reply) == Some(r) && EntryLives(live, f.key, m)
    requires ReplyResult(cfg, r, live, reply, now, env, t', back, action, outcome) && outcome.Delivered?
    ensures Mirrored(d, back)
  {
    ReplyAccepted(cfg, d, out, f, m, reply, r, live);
    ValidatedMirrors(cfg, d, out, f, m, reply, r, live, now, env, t', back, action, outcome);
  }

  lemma AcceptedMirrors(cfg: DataplaneConfig, d: seq<byte>, f: Flow, reply: seq<byte>, r: Reply, v: NatVal,
                        back: seq<byte>)
    requires WellFormed(cfg) && ForwardFlow(cfg, d) == Some(f)
    requires |reply| >= 34 && reply[14] == 0x45 && ReplyFlow(cfg, reply) == Some(r)
    requires r.src == f.key.remoteV4 && r.srcPort == f.key.remotePort
    requires ReverseRewritten(reply, back, r, v) && ClientKey(r.n, v) == f.key
    ensures Mirrored(d, back)
  {
    ReplyFlowFields(cfg, reply, r);
    MirroredIffPortsLead(cfg, d, f, reply, r, v, back);
  }

  /** Whatever options the reply had, what the client reads is its own packet mirrored exactly
      when the word behind the first twenty header bytes is the server's port: the source
      port without options, the first two option bytes with them. */
  lemma MirroredIffPortsLead(cfg: DataplaneConfig, d: seq<byte>, f: Flow, reply: seq<byte>, r: Reply, v: NatVal,
                             back: seq<byte>)
    requires WellFormed(cfg) && ForwardFlow(cfg, d) == Some(f) && |reply| >= 38
    requires r.src == f.key.remoteV4 && ClientKey(r.n, v) == f.key && ReverseRewritten(reply, back, r, v)
    ensures Mirrored(d, back) <==> WordAt(reply, 34) == f.key.remotePort
  {
    FlowFields(cfg, d, f);
    DeliveredEnds(reply, back, r, v);
    SameWord(back, 54, d, 56);
    if WordAt(reply, 34) == f.key.remotePort {
      MirrorOf(d, back, f.key, f.dst);
    }
  }

  lemma MirrorOf(d: seq<byte>, back: seq<byte>, key: FwdKey, dst: Addr6)
    requires |d| >= 58 && |back| >= 58
    requires key.vmV6 == d[22..38] && dst == d[38..54] && key.remoteV4 == EmbeddedV4(dst)
    requires key.vmPort == WordAt(d, 54) && key.remotePort == WordAt(d, 56)
    requires back[22..38] == Nat64SourceV6(key.remoteV4) && back[38..54] == key.vmV6
    requires WordAt(back, 54) == key.remotePort && WordAt(back, 56) == key.vmPort
    ensures Mirrored(d, back)
  {
    SameWord(back, 54, d, 56);
    SameWord(back, 56, d, 54);
    SourceUndoesEmbedding(dst);
    SliceOfSlice(d, 38, 54, 0, 12);
    assert dst[..12] == dst[0..12];
  }

  /** Either direction: apart from the rewritten port and the checksum, no transport byte changes. */
  lemma TransportBytesKept(t: seq<byte>, t': seq<byte>, portAt: nat, newPort: u16, field: nat,
                           oldPseudo: seq<byte>, newPseudo: seq<byte>, i: nat)
    requires TransportRewritten(t, t', portAt, newPort, field, oldPseudo, newPseudo) && i < |t|
    ensures WordAt(t', portAt) == newPort
    ensures i !in {portAt, portAt + 1, field, field + 1} ==> t'[i] == t[i]
  {
  }

  /** A reply without options is rewritten as a transport segment of its own, so the lemmas
      on the checksum delta apply to it. */
  lemma ReplyTransportRewritten(reply: seq<byte>, back: seq<byte>, r: Reply, v: NatVal)
    requires ReverseRewritten(reply, back, r, v) && r.transportAt == 34 && |reply| >= 38
    requires WordAt(reply, 36) == r.n.extPort
    ensures TransportRewritten(reply[34..], back[54..], 2, v.vmPort, FieldOf(r.n.proto),
                               Ipv4Pseudo(r.src, r.n.extV4, r.len, r.n.proto),
                               Ipv6Pseudo(Nat64SourceV6(r.src), v.vmV6, r.len, r.n.proto))
  {
    var t, t', field := reply[34..], back[54..], FieldOf(r.n.proto);
    assert WordAt(t, field) == WordAt(reply, 34 + field) && WordAt(t', field) == WordAt(back, 54 + field);
    assert WordAt(t, 2) == WordAt(reply, 36);
  }

  /** The translated frame: its IPv4 header verifies, and its segment verifies under the
      IPv4 pseudo-header exactly when the client's did under the IPv6 one. */
  lemma ForwardKeepsVerdict(d: seq<byte>, out: seq<byte>, f: Flow, m: Mapping)
    requires ForwardRewritten(d, out, f, m) && f.key.proto in {PROTO_TCP, PROTO_UDP}
    requires FieldOf(f.key.proto) + 2 <= f.len <= |d| - 54
    ensures FlatSum(out[14..34]) == 0xFFFF
    ensures Verifies(Ipv4Pseudo(m.extV4, f.key.remoteV4, f.len, f.key.proto), out[34..][..f.len])
            <==> Verifies(Ipv6Pseudo(f.key.vmV6, f.dst, f.len, f.key.proto), d[54..][..f.len])
  {
    Ipv4HeaderVerifies(f.len + 20, 0, 64, f.key.proto, Be32Bytes(m.extV4), Be32Bytes(f.key.remoteV4));
    NonZeroByte(Ipv4Pseudo(m.extV4, f.key.remoteV4, f.len, f.key.proto), 9);
    NonZeroByte(Ipv6Pseudo(f.key.vmV6, f.dst, f.len, f.key.proto), 39);
    RewriteKeepsVerdict(d[54..], out[34..], f.len, 0, m.extPort, FieldOf(f.key.proto),
                        Ipv6Pseudo(f.key.vmV6, f.dst, f.len, f.key.proto),
                        Ipv4Pseudo(m.extV4, f.key.remoteV4, f.len, f.key.proto));
  }

  /** The same for a delivered reply without IPv4 options. */
  lemma ReplyKeepsVerdict(reply: seq<byte>, back: seq<byte>, r: Reply, v: NatVal)
    requires ReverseRewritten(reply, back, r, v) && r.transportAt == 34 && |reply| >= 38
    requires WordAt(reply, 36) == r.n.extPort && r.n.proto in {PROTO_TCP, PROTO_UDP}
    requires FieldOf(r.n.proto) + 2 <= r.len <= |reply| - 34
    ensures Verifies(Ipv6Pseudo(Nat64SourceV6(r.src), v.vmV6, r.len, r.n.proto), back[54..][..r.len])
            <==> Verifies(Ipv4Pseudo(r.src, r.n.extV4, r.len, r.n.proto), reply[34..][..r.len])
  {
    ReplyTransportRewritten(reply, back, r, v);
    NonZeroByte(Ipv4Pseudo(r.src, r.n.extV4, r.len, r.n.proto), 9);
    NonZeroByte(Ipv6Pseudo(Nat64SourceV6(r.src), v.vmV6, r.len, r.n.proto), 39);
    RewriteKeepsVerdict(reply[34..], back[54..], r.len, 2, v.vmPort, FieldOf(r.n.proto),
                        Ipv4Pseudo(r.src, r.n.extV4, r.len, r.n.proto),
                        Ipv6Pseudo(Nat64SourceV6(r.src), v.vmV6, r.len, r.n.proto));
  }

  /** What a translated UDP datagram that verified leaves with: the full recomputation's
      checksum, or none when that is 0xFFFF (unless it arrived with 0xFFFF itself). */
  lemma ForwardUdpChecksum(d: seq<byte>, out: seq<byte>, f: Flow, m: Mapping)
    requires ForwardRewritten(d, out, f, m) && f.key.proto == PROTO_UDP && 8 <= f.len <= |d| - 54
    requires WordAt(d, 60) != 0xFFFF
    requires Verifies(Ipv6Pseudo(f.key.vmV6, f.dst, f.len, PROTO_UDP), d[54..][..f.len])
    ensures var right := TransportChecksum(Ipv4Pseudo(m.extV4, f.key.remoteV4, f.len, PROTO_UDP), out[34..][..f.len],
                                           6);
            WordAt(out, 40) == if right == 0xFFFF then 0 else right
  {
    NonZeroByte(Ipv4Pseudo(m.extV4, f.key.remoteV4, f.len, PROTO_UDP), 9);
    NonZeroByte(Ipv6Pseudo(f.key.vmV6, f.dst, f.len, PROTO_UDP), 39);
    DeltaStores(d[54..], out[34..], f.len, 0, m.extPort, UDP_FIELD,
                Ipv6Pseudo(f.key.vmV6, f.dst, f.len, PROTO_UDP), Ipv4Pseudo(m.extV4, f.key.remoteV4, f.len, PROTO_UDP));
    assert WordAt(d[54..], 6) == WordAt(d, 60) && WordAt(out[34..], 6) == WordAt(out, 40);
  }

  /** The same for a delivered UDP reply without IPv4 options, where IPv6 forbids none. */
  lemma ReplyUdpChecksum(reply: seq<byte>, back: seq<byte>, r: Reply, v: NatVal)
    requires ReverseRewritten(reply, back, r, v) && r.transportAt == 34 && r.n.proto == PROTO_UDP
    requires 8 <= r.len <= |reply| - 34 && WordAt(reply, 36) == r.n.extPort && WordAt(reply, 40) != 0xFFFF
    requires Verifies(Ipv4Pseudo(r.src, r.n.extV4, r.len, PROTO_UDP), reply[34..][..r.len])
    ensures var pseudo := Ipv6Pseudo(Nat64SourceV6(r.src), v.vmV6, r.len, PROTO_UDP);
            var right := TransportChecksum(pseudo, back[54..][..r.len], 6);
            WordAt(back, 60) == if right == 0xFFFF then 0 else right
  {
    ReplyTransportRewritten(reply, back, r, v);
    NonZeroByte(Ipv4Pseudo(r.src, r.n.extV4, r.len, PROTO_UDP), 9);
    NonZeroByte(Ipv6Pseudo(Nat64SourceV6(r.src), v.vmV6, r.len, PROTO_UDP), 39);
    DeltaStores(reply[34..], back[54..], r.len, 2, v.vmPort, UDP_FIELD,
                Ipv4Pseudo(r.src, r.n.extV4, r.len, PROTO_UDP),
                Ipv6Pseudo(Nat64SourceV6(r.src), v.vmV6, r.len, PROTO_UDP));
    assert WordAt(reply[34..], 6) == WordAt(reply, 40) && WordAt(back[54..], 6) == WordAt(back, 60);
  }

  // ---------- where the code stops short ----------

  /** The word the UDP zero-checksum test reads: the grown frame at the old offset. With at
      most twelve bytes of IPv4 options that is two bytes of the client's address, bytes 2
      and 3 without options; with sixteen it is the client's port just written; beyond, it is
      a word of the options. It is never the checksum. */
  function TestedWord(d: seq<byte>, r: Reply, v: NatVal): u16
    requires 34 <= r.transportAt && r.transportAt % 4 == 2 && r.transportAt + 6 <= |d|
  {
    if r.transportAt <= 46 then Be16(v.vmV6[r.transportAt - 32], v.vmV6[r.transportAt - 31])
    else if r.transportAt == 50 then v.vmPort
    else WordAt(d, r.transportAt - 14)
  }

  /** So a UDP reply arrives exactly when no helper fails and that word is not zero,
      whatever checksum it carried, for every header length. */
  lemma ZeroTestReadsClientAddress(d: seq<byte>, r: Reply, v: NatVal, env: ReverseEnv)
    requires |env.filler| == 20 && r.n.proto == PROTO_UDP
    requires 34 <= r.transportAt && r.transportAt % 4 == 2 && r.transportAt + 6 <= |d|
    ensures Arrives(d, r, v, env) <==>
            !env.changeProtoFails && env.csum == NoFault && |d| >= 42 && TestedWord(d, r, v) != 0
  {
    HeadedWord(d, env.filler, r, v, r.transportAt + 6);
    if r.transportAt >= 50 {
      var t := d[34..];
      assert SetWord(t, 2, v.vmPort)[2..4] == Be16Bytes(v.vmPort);
    }
  }

  /** A word of the headed frame: of the client's address, or behind the header. */
  lemma HeadedWord(d: seq<byte>, filler: seq<byte>, r: Reply, v: NatVal, at: nat)
    requires |d| >= 38 && |filler| == 20 && 38 <= at && at + 2 <= |d| + 20 && at != 53
    ensures var h := Headed(d, filler, r, v);
            && |h| == |d| + 20
            && WordAt(h, at) == (if at < 53 then Be16(v.vmV6[at - 38], v.vmV6[at - 37])
                                 else WordAt(SetWord(d[34..], 2, v.vmPort), at - 54))
  {
    var header := Ipv6Header(r.len, r.n.proto, 64, Nat64SourceV6(r.src), v.vmV6);
    var h := Headed(d, filler, r, v);
    assert h == d[..12] + [0x86, 0xDD] + header + SetWord(d[34..], 2, v.vmPort);
    if at < 53 {
      assert h[at] == header[at - 14] && h[at + 1] == header[at - 13];
      assert header[at - 14] == v.vmV6[at - 38] && header[at - 13] == v.vmV6[at - 37];
    }
  }

  /** Where the client does not look, behind the options, the sender's transport header still
      carries the external port, TCP or UDP: the client's own only when there are no options
      or the two ports happen to be equal. The one other case is next. */
  lemma OptionsMisplaceThePort(reply: seq<byte>, back: seq<byte>, r: Reply, v: NatVal)
    requires ReverseRewritten(reply, back, r, v) && r.n.proto in {PROTO_TCP, PROTO_UDP}
    requires 34 <= r.transportAt && r.transportAt % 4 == 2 && r.transportAt + 4 <= |reply|
    requires r.n.proto == PROTO_UDP ==> r.transportAt != 38
    requires WordAt(reply, r.transportAt + 2) == r.n.extPort
    ensures WordAt(back, r.transportAt + 22) == v.vmPort <==> r.transportAt == 34 || r.n.extPort == v.vmPort
  {
    var t, t', at := reply[34..], back[54..], r.transportAt - 34 + 2;
    assert back[r.transportAt + 22] == t'[at] && back[r.transportAt + 23] == t'[at + 1];
    assert reply[r.transportAt + 2] == t[at] && reply[r.transportAt + 3] == t[at + 1];
    if r.transportAt > 34 {
      var field := FieldOf(r.n.proto);
      assert at >= 6 && (at + 1 < field || at > field + 1);
      assert t'[at] == t[at] && t'[at + 1] == t[at + 1];
    }
  }

  /** UDP behind four bytes of options: the destination port lies where the checksum is
      taken to be, and is updated as if it were one. It comes out as the client's port
      exactly when the two ports and pseudo-headers balance modulo 65535. */
  lemma OptionsUpdateThePort(reply: seq<byte>, back: seq<byte>, r: Reply, v: NatVal)
    requires ReverseRewritten(reply, back, r, v) && r.n.proto == PROTO_UDP && r.transportAt == 38
    requires |reply| >= 42 && WordAt(reply, 40) == r.n.extPort
    ensures var new6 := WordSum(Ipv6Pseudo(Nat64SourceV6(r.src), v.vmV6, r.len, PROTO_UDP));
            var old4 := WordSum(Ipv4Pseudo(r.src, r.n.extV4, r.len, PROTO_UDP));
            var balanced := Congruent(2 * v.vmPort + new6, 2 * r.n.extPort + old4);
            && (Congruent(WordAt(back, 60), v.vmPort) <==> balanced)
            && (r.n.extPort != 0xFFFF ==> (WordAt(back, 60) == v.vmPort <==> balanced && v.vmPort != 0xFFFF))
  {
    var old4: int, new6: int := WordSum(Ipv4Pseudo(r.src, r.n.extV4, r.len, PROTO_UDP)),
                                WordSum(Ipv6Pseudo(Nat64SourceV6(r.src), v.vmV6, r.len, PROTO_UDP));
    assert CheckTracks(WordAt(reply, 40), WordAt(back, 60), Ipv4Pseudo(r.src, r.n.extV4, r.len, PROTO_UDP),
                       Ipv6Pseudo(Nat64SourceV6(r.src), v.vmV6, r.len, PROTO_UDP), r.n.extPort, v.vmPort);
    BalancedPort(WordAt(back, 60), v.vmPort, r.n.extPort, old4, new6);
  }

  lemma BalancedPort(after: u16, vmPort: u16, extPort: u16, old4: int, new6: int)
    requires Congruent(after + new6 + vmPort, extPort + old4 + extPort) && (after == 0xFFFF ==> extPort == 0xFFFF)
    ensures Congruent(after, vmPort) <==> Congruent(2 * vmPort + new6, 2 * extPort + old4)
    ensures extPort != 0xFFFF ==>
              (after == vmPort <==> Congruent(2 * vmPort + new6, 2 * extPort + old4) && vmPort != 0xFFFF)
  {
    var a: int, p: int, e: int := after, vmPort, extPort;
    var x := Quotient(a + new6 + p, e + old4 + e);
    if Congruent(a, p) {
      var q := Quotient(a, p);
      CongruentBy(2 * p + new6, 2 * e + old4, x - q);
    }
    if Congruent(2 * p + new6, 2 * e + old4) {
      var q := Quotient(2 * p + new6, 2 * e + old4);
      CongruentBy(a, p, x - q);
    }
    if a == p {
      CongruentBy(a, p, 0);
    }
  }
}
