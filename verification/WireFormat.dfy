/** What the classifiers take and give, byte by byte and in the numbers of the protocols:
    which frames are translated at all, what the frames they leave look like, where they go
    and what the counters show. */
module WireFormat {
  import opened Words
  import opened OnesComplement
  import opened Checksum
  import opened Headers
  import opened Abi
  import opened Fnv
  import opened Pool
  import PA = PortAllocator
  import opened NatTables
  import C = Counters
  import opened Packets
  import opened Translation
  import opened Dataplane
  import opened RoundTrip

  // ---------- which frames belong to a flow ----------

  /** An IPv6 frame of this protocol to the configured prefix, and a usable pool. */
  predicate ToPrefix(cfg: DataplaneConfig, d: seq<byte>, proto: byte)
    requires WellFormed(cfg)
  {
    && |d| >= 54 && WordAt(d, 12) == 0x86DD && d[20] == proto && d[38..50] == cfg.prefix96
    && 1 <= cfg.v4PoolLen <= 16
  }

  lemma AddressedIff(cfg: DataplaneConfig, d: seq<byte>)
    requires WellFormed(cfg)
    ensures var parsed := ParseIpv6Base(d, ETH_HDR_LEN);
            parsed.Some? && Addressed(cfg, d, parsed.value) <==> ToPrefix(cfg, d, 6) || ToPrefix(cfg, d, 17)
  {
    ParseReadsFields(d, 14);
    if |d| >= 54 {
      SelectedIsRemainder(d[22..38], cfg);
      SliceOfSlice(d, 38, 54, 0, 12);
      assert d[38..54][..12] == d[38..54][0..12];
    }
  }

  /** Exactly these frames are looked up as forward packets: TCP with both ports present and
      at most 1500 bytes of payload announced, UDP with ports and length present and the
      length between 8 and 1500. */
  lemma ForwardFlowIff(cfg: DataplaneConfig, d: seq<byte>)
    requires WellFormed(cfg)
    ensures ForwardFlow(cfg, d).Some? <==>
            || (ToPrefix(cfg, d, 6) && |d| >= 58 && WordAt(d, 18) <= 1500)
            || (ToPrefix(cfg, d, 17) && |d| >= 60 && 8 <= WordAt(d, 58) <= 1500)
  {
    AddressedIff(cfg, d);
    ParseReadsFields(d, 14);
  }

  /** And this is the flow: the five-tuple at its offsets, the address its client hashes to,
      and the length of the TCP payload or the UDP datagram. */
  lemma ForwardFlowFields(cfg: DataplaneConfig, d: seq<byte>, f: Flow)
    requires WellFormed(cfg) && ForwardFlow(cfg, d) == Some(f)
    ensures |d| >= 58 && f.key.vmV6 == d[22..38] && f.dst == d[38..54] && f.key.remoteV4 == AddressAt(d, 50)
    ensures f.key.vmPort == WordAt(d, 54) && f.key.remotePort == WordAt(d, 56) && f.key.proto == d[20]
    ensures f.key.proto in {6, 17} && 1 <= cfg.v4PoolLen <= 16
    ensures f.selected == cfg.v4Pool[Hash(d[22..38]) % cfg.v4PoolLen]
    ensures f.key.proto == 6 ==> f.len == WordAt(d, 18)
    ensures f.key.proto == 17 ==> |d| >= 60 && f.len == WordAt(d, 58)
  {
    ForwardFlowIff(cfg, d);
    FlowFields(cfg, d, f);
    ParseReadsFields(d, 14);
    SelectedIsRemainder(d[22..38], cfg);
    var dst := d[38..54];
    assert dst[12] == d[50] && dst[13] == d[51] && dst[14] == d[52] && dst[15] == d[53];
  }

  /** The TCP frames that are stripped before they turn out to be too short for their ports. */
  lemma TruncatedTcpIff(cfg: DataplaneConfig, d: seq<byte>)
    requires WellFormed(cfg)
    ensures TruncatedTcp(cfg, d) <==> ToPrefix(cfg, d, 6) && WordAt(d, 18) <= 1500 && |d| < 58
  {
    AddressedIff(cfg, d);
    ParseReadsFields(d, 14);
  }

  // ---------- which frames are replies ----------

  /** The header length a first byte of the IPv4 header announces. */
  function HeaderLength(vihl: byte): int {
    (vihl - 0x40) * 4
  }

  /** An unfragmented IPv4 frame, with a header of 20 to 60 bytes inside its total length, to
      an active address of the pool. */
  predicate ToPool(cfg: DataplaneConfig, d: seq<byte>, proto: byte)
    requires WellFormed(cfg)
  {
    && |d| >= 34 && WordAt(d, 12) == 0x0800 && 0x45 <= d[14] <= 0x4F && d[23] == proto
    && HeaderLength(d[14]) <= WordAt(d, 16) && WordAt(d, 20) in {0, 0x4000, 0x8000, 0xC000}
    && 1 <= cfg.v4PoolLen <= 16 && AddressAt(d, 30) in cfg.v4Pool[..cfg.v4PoolLen]
  }

  lemma InPoolIff(cfg: DataplaneConfig, v4: u32)
    requires WellFormed(cfg)
    ensures V4InPool(v4, cfg) <==> 1 <= cfg.v4PoolLen <= 16 && v4 in cfg.v4Pool[..cfg.v4PoolLen]
  {
    if 1 <= cfg.v4PoolLen <= 16 {
      InFirstIsMembership(cfg.v4PoolLen, v4, cfg.v4Pool);
      var active := cfg.v4Pool[..cfg.v4PoolLen];
      assert forall i :: 0 <= i < cfg.v4PoolLen ==> active[i] == cfg.v4Pool[i];
    }
  }

  lemma FirstByte(b: byte)
    ensures b / 16 == 4 && b % 16 >= 5 <==> 0x45 <= b <= 0x4F
    ensures 0x45 <= b <= 0x4F ==> b % 16 * 4 == HeaderLength(b)
  {
  }

  lemma FragmentBits(w: u16)
    ensures w % 0x4000 == 0 <==> w in {0, 0x4000, 0x8000, 0xC000}
  {
  }

  lemma CandidateIff(cfg: DataplaneConfig, d: seq<byte>)
    requires WellFormed(cfg)
    ensures Ipv4Candidate(cfg, d) <==> ToPool(cfg, d, 6) || ToPool(cfg, d, 17)
  {
    if |d| >= 34 {
      FirstByte(d[14]);
      FragmentBits(WordAt(d, 20));
      InPoolIff(cfg, AddressAt(d, 30));
    }
  }

  /** Exactly these frames are looked up as replies: TCP with both ports present and at most
      1500 bytes behind the header, UDP with ports and length present, the length between
      8 and 1500 and inside the total length. */
  lemma ReplyFlowIff(cfg: DataplaneConfig, d: seq<byte>)
    requires WellFormed(cfg)
    ensures ReplyFlow(cfg, d).Some? <==>
            || (ToPool(cfg, d, 6) && |d| >= 18 + HeaderLength(d[14]) && WordAt(d, 16) - HeaderLength(d[14]) <= 1500)
            || (ToPool(cfg, d, 17) && |d| >= 20 + HeaderLength(d[14])
                && 8 <= WordAt(d, 18 + HeaderLength(d[14])) <= 1500
                && HeaderLength(d[14]) + WordAt(d, 18 + HeaderLength(d[14])) <= WordAt(d, 16))
  {
    CandidateIff(cfg, d);
    if Ipv4Candidate(cfg, d) {
      FirstByte(d[14]);
      TransportIff(d, HeaderLength(d[14]), WordAt(d, 16), d[23], AddressAt(d, 26), AddressAt(d, 30));
    }
  }

  lemma TransportIff(d: seq<byte>, ihl: nat, total: u16, proto: byte, src: u32, dst: u32)
    requires 20 <= ihl <= total && proto in {6, 17}
    ensures var r := TransportReply(d, ihl, total, proto, src, dst);
            && (r.Some? <==> && |d| >= 18 + ihl
                             && if proto == 6 then total - ihl <= 1500
                                else |d| >= 20 + ihl && 8 <= WordAt(d, 18 + ihl) <= 1500
                                     && ihl + WordAt(d, 18 + ihl) <= total)
            && (r.Some? ==>
                  r.value == Reply(NatKey(dst, WordAt(d, 16 + ihl), proto), src, WordAt(d, 14 + ihl),
                                   if proto == 6 then Wrap16(total - ihl) else WordAt(d, 18 + ihl), 14 + ihl))
  {
  }

  /** And this is the reply: the tuple it is looked up under, its sender, and its length. */
  lemma ReplyFlowFieldsOf(cfg: DataplaneConfig, d: seq<byte>, r: Reply)
    requires WellFormed(cfg) && ReplyFlow(cfg, d) == Some(r)
    ensures |d| >= 34 && 0x45 <= d[14] <= 0x4F
    ensures var ihl := HeaderLength(d[14]);
            && r.transportAt == 14 + ihl && |d| >= 18 + ihl && ihl <= WordAt(d, 16)
            && r.n == NatKey(AddressAt(d, 30), WordAt(d, 16 + ihl), d[23]) && d[23] in {6, 17}
            && r.src == AddressAt(d, 26) && r.srcPort == WordAt(d, 14 + ihl)
            && (d[23] == 6 ==> r.len == WordAt(d, 16) - ihl)
            && (d[23] == 17 ==> |d| >= 20 + ihl && r.len == WordAt(d, 18 + ihl))
  {
    CandidateIff(cfg, d);
    FirstByte(d[14]);
    TransportIff(d, HeaderLength(d[14]), WordAt(d, 16), d[23], AddressAt(d, 26), AddressAt(d, 30));
  }

  // ---------- the frames that leave ----------

  /** Where the checksum lies in a transport header. */
  lemma ChecksumOffsets()
    ensures FieldOf(6) == 16 && FieldOf(17) == 6
  {
  }

  /** The header of a translated packet. */
  lemma ForwardHeaderBytes(d: seq<byte>, out: seq<byte>, f: Flow, m: Mapping)
    requires Ipv4Headed(d, out, f, m)
    ensures |out| == |d| - 20 && out[..12] == d[..12] && WordAt(out, 12) == 0x0800
    ensures out[14] == 0x45 && out[15] == 0 && WordAt(out, 16) == f.len + 20 && WordAt(out, 18) == 0
    ensures WordAt(out, 20) == 0 && out[22] == 64 && out[23] == f.key.proto
    ensures AddressAt(out, 26) == m.extV4 && AddressAt(out, 30) == f.key.remoteV4
    ensures FlatSum(out[14..34]) == 0xFFFF
  {
    var src, dst := Be32Bytes(m.extV4), Be32Bytes(f.key.remoteV4);
    OutgoingLayout(out, f.len + 20, 0, 64, f.key.proto, src, dst);
    SameAddress(out, 26, m.extV4);
    SameAddress(out, 30, f.key.remoteV4);
    assert out[12] == out[12..14][0] && out[13] == out[12..14][1];
  }

  lemma OutgoingLayout(out: seq<byte>, totalLen: u16, id: u16, ttl: byte, proto: byte, src: Addr4, dst: Addr4)
    requires |out| >= 34 && out[14..34] == Ipv4Header(totalLen, id, ttl, proto, src, dst)
    ensures out[14] == 0x45 && out[15] == 0 && WordAt(out, 16) == totalLen && WordAt(out, 18) == id
    ensures WordAt(out, 20) == 0 && out[22] == ttl && out[23] == proto && out[26..30] == src && out[30..34] == dst
    ensures FlatSum(out[14..34]) == 0xFFFF
  {
    Ipv4HeaderBytes(totalLen, id, ttl, proto, src, dst);
    Ipv4Placed(out, Ipv4Header(totalLen, id, ttl, proto, src, dst));
  }

  lemma Ipv4Placed(d: seq<byte>, h: seq<byte>)
    requires |h| == 20 && |d| >= 34 && d[14..34] == h
    ensures d[14] == h[0] && d[15] == h[1] && WordAt(d, 16) == Be16(h[2], h[3]) && WordAt(d, 18) == Be16(h[4], h[5])
    ensures WordAt(d, 20) == Be16(h[6], h[7]) && d[22] == h[8] && d[23] == h[9]
    ensures d[26..30] == h[12..16] && d[30..34] == h[16..20]
  {
    forall k | 0 <= k < 20
      ensures d[14 + k] == h[k]
    {
      assert h[k] == d[14..34][k];
    }
    SliceOfSlice(d, 14, 34, 12, 16);
    SliceOfSlice(d, 14, 34, 16, 20);
  }

  /** Its transport: the external port, and every other byte as the client sent it but for
      the checksum, at bytes 16 and 17 of TCP and 6 and 7 of UDP. */
  lemma ForwardTransportBytes(d: seq<byte>, out: seq<byte>, f: Flow, m: Mapping, i: nat)
    requires ForwardRewritten(d, out, f, m) && f.key.proto in {6, 17} && 34 <= i < |out|
    ensures |out| >= 36 && WordAt(out, 34) == m.extPort
    ensures f.key.proto == 6 && i !in {34, 35, 50, 51} ==> out[i] == d[i + 20]
    ensures f.key.proto == 17 && i !in {34, 35, 40, 41} ==> out[i] == d[i + 20]
  {
    TransportBytesKept(d[54..], out[34..], 0, m.extPort, FieldOf(f.key.proto),
                       Ipv6Pseudo(f.key.vmV6, f.dst, f.len, f.key.proto),
                       Ipv4Pseudo(m.extV4, f.key.remoteV4, f.len, f.key.proto), i - 34);
    assert out[34..][i - 34] == out[i] && d[54..][i - 34] == d[i + 20];
  }

  /** The header of a delivered reply. */
  lemma ReplyHeaderBytes(reply: seq<byte>, back: seq<byte>, r: Reply, v: NatVal)
    requires ReverseRewritten(reply, back, r, v)
    ensures |back| == |reply| + 20 && back[..12] == reply[..12] && WordAt(back, 12) == 0x86DD
    ensures WordAt(back, 14) == 0x6000 && WordAt(back, 16) == 0 && WordAt(back, 18) == r.len
    ensures back[20] == r.n.proto && back[21] == 64
    ensures back[22..34] == [0x00, 0x64, 0xff, 0x9b, 0, 0, 0, 0, 0, 0, 0, 0] && AddressAt(back, 34) == r.src
    ensures back[38..54] == v.vmV6
  {
    var src := Nat64SourceV6(r.src);
    IncomingLayout(back, r.len, r.n.proto, 64, src, v.vmV6);
    assert back[12] == back[12..14][0] && back[13] == back[12..14][1];
    SliceOfSlice(back, 22, 38, 0, 12);
    SliceOfSlice(back, 22, 38, 12, 16);
    assert src[0..12] == WELL_KNOWN_PREFIX && src[12..16] == Be32Bytes(r.src);
    SameAddress(back, 34, r.src);
  }

  lemma IncomingLayout(back: seq<byte>, len: u16, proto: byte, hopLimit: byte, src: Addr6, dst: Addr6)
    requires |back| >= 54 && back[14..54] == Ipv6Header(len, proto, hopLimit, src, dst)
    ensures WordAt(back, 14) == 0x6000 && WordAt(back, 16) == 0 && WordAt(back, 18) == len
    ensures back[20] == proto && back[21] == hopLimit && back[22..38] == src && back[38..54] == dst
  {
    Ipv6HeaderBytes(len, proto, hopLimit, src, dst);
    Ipv6Placed(back, Ipv6Header(len, proto, hopLimit, src, dst));
  }

  lemma Ipv6Placed(d: seq<byte>, h: seq<byte>)
    requires |h| == 40 && |d| >= 54 && d[14..54] == h
    ensures WordAt(d, 14) == Be16(h[0], h[1]) && WordAt(d, 16) == Be16(h[2], h[3]) && WordAt(d, 18) == Be16(h[4], h[5])
    ensures d[20] == h[6] && d[21] == h[7] && d[22..38] == h[8..24] && d[38..54] == h[24..40]
  {
    forall k | 0 <= k < 40
      ensures d[14 + k] == h[k]
    {
      assert h[k] == d[14..54][k];
    }
    SliceOfSlice(d, 14, 54, 8, 24);
    SliceOfSlice(d, 14, 54, 24, 40);
  }

  /** Its transport: the client's port, and every other byte as the server sent it but for
      the checksum. */
  lemma ReplyTransportBytes(reply: seq<byte>, back: seq<byte>, r: Reply, v: NatVal, i: nat)
    requires ReverseRewritten(reply, back, r, v) && r.n.proto in {6, 17} && 54 <= i < |back|
    ensures |back| >= 58 && WordAt(back, 56) == v.vmPort
    ensures r.n.proto == 6 && i !in {56, 57, 70, 71} ==> back[i] == reply[i - 20]
    ensures r.n.proto == 17 && i !in {56, 57, 60, 61} ==> back[i] == reply[i - 20]
  {
    var t, t' := reply[34..], back[54..];
    assert t'[2] == back[56] && t'[3] == back[57] && WordAt(t', 2) == v.vmPort;
    assert t'[i - 54] == back[i] && t[i - 54] == reply[i - 20];
  }

  // ---------- the frames of packets that were not finished ----------

  /** A frame that changed without getting its header, TCP cut short or refused its mapping,
      lost the twenty bytes behind the Ethernet header and nothing else. */
  lemma UnfinishedFrame(cfg: DataplaneConfig, t: Tables, d: seq<byte>, now: nat, gen: u32, env: ForwardEnv,
                        o: PA.Outcome, t': Tables, d': seq<byte>, action: Action, outcome: ForwardOutcome)
    requires WellFormed(cfg) && ForwardResult(cfg, t, d, now, gen, env, o, t', d', action, outcome)
    requires (outcome.Truncated? || outcome.Refused?) && d' != d
    ensures |d| >= 54 && |d'| == |d| - 20 && d'[..12] == d[..12] && WordAt(d', 12) == 0x0800 && d'[14..] == d[34..]
  {
    StrippedBytes(d);
  }

  lemma StrippedBytes(d: seq<byte>)
    ensures |d| >= 54 ==>
              var d' := Stripped(d);
              |d'| == |d| - 20 && d'[..12] == d[..12] && WordAt(d', 12) == 0x0800 && d'[14..] == d[34..]
  {
  }

  /** A stopped one has its header (`ForwardHeaderBytes`) and its external port, and outside
      the checksum every byte as the client sent it. */
  lemma StoppedTransportBytes(d: seq<byte>, out: seq<byte>, f: Flow, m: Mapping, fault: CsumFault, i: nat)
    requires ForwardAbandoned(d, out, f, m, fault) && f.key.proto in {6, 17} && 34 <= i < |out|
    ensures WordAt(out, 34) == m.extPort
    ensures f.key.proto == 6 && i !in {34, 35, 50, 51} ==> out[i] == d[i + 20]
    ensures f.key.proto == 17 && i !in {34, 35, 40, 41} ==> out[i] == d[i + 20]
  {
    var t, t' := SetWord(d[54..], 0, m.extPort), out[34..];
    assert t'[0] == out[34] && t'[1] == out[35] && t'[0] == t[0] && t'[1] == t[1];
    assert t'[i - 34] == out[i] && d[54..][i - 34] == d[i + 20];
  }

  /** And its checksum field, if the frame holds it, is as it was when the first or second
      helper failed, and has only the pseudo-header exchanged when the third did. */
  lemma {:induction false} StoppedChecksum(d: seq<byte>, out: seq<byte>, f: Flow, m: Mapping, fault: CsumFault,
                                           field: nat)
    requires ForwardAbandoned(d, out, f, m, fault) && |d| >= 54 + field + 2
    requires (f.key.proto == 6 && field == 16) || (f.key.proto == 17 && field == 6)
    ensures fault in {DiffFails, PseudoFails} ==> WordAt(out, 34 + field) == WordAt(d, 54 + field)
    ensures fault == PortFails ==>
              Congruent(WordAt(out, 34 + field) + WordSum(Ipv4Pseudo(m.extV4, f.key.remoteV4, f.len, f.key.proto)),
                        WordAt(d, 54 + field) + WordSum(Ipv6Pseudo(f.key.vmV6, f.dst, f.len, f.key.proto)))
  {
    var t, t' := SetWord(d[54..], 0, m.extPort), out[34..];
    FieldStopped(t, t', field, fault, Ipv6Pseudo(f.key.vmV6, f.dst, f.len, f.key.proto),
                 Ipv4Pseudo(m.extV4, f.key.remoteV4, f.len, f.key.proto), f.key.vmPort, m.extPort);
    PortLeavesField(d, m.extPort, field);
    FieldBehind(out, field);
  }

  lemma PortLeavesField(d: seq<byte>, port: u16, field: nat)
    requires field >= 2 && 54 + field + 2 <= |d|
    ensures WordAt(SetWord(d[54..], 0, port), field) == WordAt(d, 54 + field)
  {
  }

  lemma {:induction false} FieldStopped(t: seq<byte>, t': seq<byte>, field: nat, fault: CsumFault,
                                        oldPseudo: seq<byte>, newPseudo: seq<byte>, oldPort: u16, newPort: u16)
    requires DeltaLeaves(t, t', field, fault, oldPseudo, newPseudo, oldPort, newPort) && field + 2 <= |t|
    ensures fault in {DiffFails, PseudoFails} ==> WordAt(t', field) == WordAt(t, field)
    ensures fault == PortFails ==>
              Congruent(WordAt(t', field) + WordSum(newPseudo), WordAt(t, field) + WordSum(oldPseudo))
  {
  }

  /** An abandoned reply, unless the protocol change failed, has its IPv6 header and the
      client's port, and outside the checksum every byte as the server sent it. */
  lemma AbandonedReplyBytes(d: seq<byte>, d': seq<byte>, r: Reply, v: NatVal, env: ReverseEnv, i: nat)
    requires |d| >= 38 && |env.filler| == 20 && !env.changeProtoFails && r.n.proto in {6, 17}
    requires ReplyAbandoned(d, d', r, v, env) && 54 <= i < |d'|
    ensures |d'| == |d| + 20 && d'[..12] == d[..12] && WordAt(d', 12) == 0x86DD
    ensures d'[14..54] == Ipv6Header(r.len, r.n.proto, 64, Nat64SourceV6(r.src), v.vmV6)
    ensures WordAt(d', 56) == v.vmPort
    ensures r.n.proto == 6 && i !in {56, 57, 70, 71} ==> d'[i] == d[i - 20]
    ensures r.n.proto == 17 && i !in {56, 57, 60, 61} ==> d'[i] == d[i - 20]
  {
    HeadedBytes(d, env.filler, r, v, i);
    var h := Headed(d, env.filler, r, v);
    assert d'[..12] == h[..12] && d'[14..54] == h[14..54] && WordAt(d', 56) == WordAt(h, 56);
  }

  lemma HeadedBytes(d: seq<byte>, filler: seq<byte>, r: Reply, v: NatVal, i: nat)
    requires |d| >= 38 && |filler| == 20 && 54 <= i < |d| + 20
    ensures var h := Headed(d, filler, r, v);
            && |h| == |d| + 20 && h[..12] == d[..12] && WordAt(h, 12) == 0x86DD
            && h[14..54] == Ipv6Header(r.len, r.n.proto, 64, Nat64SourceV6(r.src), v.vmV6)
            && WordAt(h, 56) == v.vmPort && (i !in {56, 57} ==> h[i] == d[i - 20])
  {
    var header, t := Ipv6Header(r.len, r.n.proto, 64, Nat64SourceV6(r.src), v.vmV6), SetWord(d[34..], 2, v.vmPort);
    FrameParts(d[..12], [0x86, 0xDD], header, t, i);
    assert WordAt(t, 2) == v.vmPort;
    assert i !in {56, 57} ==> t[i - 54] == d[34..][i - 54];
  }

  lemma FrameParts(a: seq<byte>, b: seq<byte>, h: seq<byte>, t: seq<byte>, i: nat)
    requires |a| == 12 && |b| == 2 && |h| == 40 && |t| >= 4 && 54 <= i < 54 + |t|
    ensures var d := a + b + h + t;
            && d[..12] == a && d[12] == b[0] && d[13] == b[1] && d[14..54] == h && d[i] == t[i - 54]
            && d[56] == t[2] && d[57] == t[3]
  {
  }

  // ---------- the TCP checksum ----------

  /** What a translated TCP segment that verified leaves with, at bytes 16 and 17: the full
      recomputation's checksum, or 0 in place of 0xFFFF. */
  lemma ForwardTcpChecksum(d: seq<byte>, out: seq<byte>, f: Flow, m: Mapping)
    requires ForwardRewritten(d, out, f, m) && f.key.proto == 6 && 18 <= f.len <= |d| - 54
    requires WordAt(d, 70) != 0xFFFF
    requires Verifies(Ipv6Pseudo(f.key.vmV6, f.dst, f.len, 6), d[54..][..f.len])
    ensures var right := TransportChecksum(Ipv4Pseudo(m.extV4, f.key.remoteV4, f.len, 6), out[34..][..f.len], 16);
            WordAt(out, 50) == if right == 0xFFFF then 0 else right
  {
    NonZeroByte(Ipv4Pseudo(m.extV4, f.key.remoteV4, f.len, 6), 9);
    NonZeroByte(Ipv6Pseudo(f.key.vmV6, f.dst, f.len, 6), 39);
    DeltaStores(d[54..], out[34..], f.len, 0, m.extPort, TCP_FIELD,
                Ipv6Pseudo(f.key.vmV6, f.dst, f.len, 6), Ipv4Pseudo(m.extV4, f.key.remoteV4, f.len, 6));
    assert WordAt(d[54..], 16) == WordAt(d, 70) && WordAt(out[34..], 16) == WordAt(out, 50);
  }

  /** The same for a delivered TCP reply without IPv4 options. */
  lemma ReplyTcpChecksum(reply: seq<byte>, back: seq<byte>, r: Reply, v: NatVal)
    requires ReverseRewritten(reply, back, r, v) && r.transportAt == 34 && r.n.proto == 6
    requires 18 <= r.len <= |reply| - 34 && WordAt(reply, 36) == r.n.extPort && WordAt(reply, 50) != 0xFFFF
    requires Verifies(Ipv4Pseudo(r.src, r.n.extV4, r.len, 6), reply[34..][..r.len])
    ensures var pseudo := Ipv6Pseudo(Nat64SourceV6(r.src), v.vmV6, r.len, 6);
            var right := TransportChecksum(pseudo, back[54..][..r.len], 16);
            WordAt(back, 70) == if right == 0xFFFF then 0 else right
  {
    ReplyTransportRewritten(reply, back, r, v);
    NonZeroByte(Ipv4Pseudo(r.src, r.n.extV4, r.len, 6), 9);
    NonZeroByte(Ipv6Pseudo(Nat64SourceV6(r.src), v.vmV6, r.len, 6), 39);
    DeltaStores(reply[34..], back[54..], r.len, 2, v.vmPort, TCP_FIELD,
                Ipv4Pseudo(r.src, r.n.extV4, r.len, 6), Ipv6Pseudo(Nat64SourceV6(r.src), v.vmV6, r.len, 6));
    assert WordAt(reply[34..], 16) == WordAt(reply, 50) && WordAt(back[54..], 16) == WordAt(back, 70);
  }

  // ---------- where packets go ----------

  /** The shortest frame that holds its checksum field. */
  function ForwardMinimum(proto: byte): nat {
    if proto == 6 then 72 else 62
  }

  function ReplyMinimum(proto: byte): nat {
    if proto == 6 then 52 else 42
  }

  /** No checksum helper fails; the last one is called for UDP only. */
  predicate ChecksumHolds(fault: CsumFault, proto: byte) {
    fault == NoFault || (fault == MangleFails && proto == 6)
  }

  /** What it takes to translate a packet of flow `f`: no fault of the protocol change, a
      mapping granted, its checksum field inside the frame, and no checksum helper failing. */
  predicate Translatable(cfg: DataplaneConfig, t: Tables, d: seq<byte>, f: Flow, env: ForwardEnv, o: PA.Outcome) {
    && !env.changeProtoFails && Granted(t, f.key, o, TimeoutNs(cfg.sessionTimeoutSecs), env.faults)
    && |d| >= ForwardMinimum(f.key.proto) && ChecksumHolds(env.csum, f.key.proto)
  }

  /** A packet is translated exactly then; and a translated one, unless TCP could not write
      its reverse entry, goes to the uplink, or is dropped if there is none. Every other
      packet is passed on. */
  lemma ForwardFate(cfg: DataplaneConfig, t: Tables, d: seq<byte>, now: nat, gen: u32, env: ForwardEnv, o: PA.Outcome,
                    t': Tables, d': seq<byte>, action: Action, outcome: ForwardOutcome)
    requires WellFormed(cfg) && ForwardResult(cfg, t, d, now, gen, env, o, t', d', action, outcome)
    ensures var flow := ForwardFlow(cfg, d);
            && (outcome.Translated? <==> flow.Some? && Translatable(cfg, t, d, flow.value, env, o))
            && (outcome.Translated? ==> ForwardRewritten(d, d', flow.value, outcome.mapping)
                                        && outcome.inserted == !env.natInsertFails)
            && action == if outcome.Translated? && (outcome.inserted || flow.value.key.proto == 17)
                         then (if cfg.uplink == 0 then Shot else Redirected(env.redirect))
                         else Pipe
  {
    var flow := ForwardFlow(cfg, d);
    if flow.Some? {
      FlowNotShort(cfg, d);
      FlowFields(cfg, d, flow.value);
      if !outcome.Untouched? {
        FlowFate(cfg, flow.value, t, d, now, gen, env, o, t', d', action, outcome);
      }
    }
  }

  lemma FlowFate(cfg: DataplaneConfig, f: Flow, t: Tables, d: seq<byte>, now: nat, gen: u32, env: ForwardEnv,
                 o: PA.Outcome, t': Tables, d': seq<byte>, action: Action, outcome: ForwardOutcome)
    requires FlowResult(cfg, f, t, d, now, gen, env, o, t', d', action, outcome) && f.key.proto in {6, 17}
    ensures outcome.Translated? <==> Translatable(cfg, t, d, f, env, o)
    ensures outcome.Translated? ==>
              ForwardRewritten(d, d', f, outcome.mapping) && outcome.inserted == !env.natInsertFails
    ensures action == if outcome.Translated? && (outcome.inserted || f.key.proto == 17)
                      then (if cfg.uplink == 0 then Shot else Redirected(env.redirect))
                      else Pipe
  {
  }

  /** What it takes to deliver reply `r`: its session's entry names its sender, it holds its
      checksum field, no helper fails, and for UDP the word that the zero-checksum test reads
      is not zero. */
  predicate Deliverable(t: Tables, d: seq<byte>, r: Reply, env: ReverseEnv) {
    && r.n in t.nat_ && t.nat_[r.n].remoteV4 == r.src && t.nat_[r.n].remotePort == r.srcPort
    && !env.changeProtoFails && |d| >= ReplyMinimum(r.n.proto) && ChecksumHolds(env.csum, r.n.proto)
    && (r.n.proto == 17 ==>
          34 <= r.transportAt && r.transportAt % 4 == 2 && r.transportAt + 6 <= |d|
          && TestedWord(d, r, t.nat_[r.n]) != 0)
  }

  /** A reply is delivered exactly then, with the entry it refreshed; and it goes to the
      bridge, or is dropped if there is none. Every other packet is passed on. */
  lemma ReplyFate(cfg: DataplaneConfig, t: Tables, d: seq<byte>, now: nat, env: ReverseEnv,
                  t': Tables, d': seq<byte>, action: Action, outcome: ReverseOutcome)
    requires WellFormed(cfg) && ReverseResult(cfg, t, d, now, env, t', d', action, outcome)
    ensures var r := ReplyFlow(cfg, d);
            && (outcome.Delivered? <==> r.Some? && Deliverable(t, d, r.value, env))
            && (outcome.Delivered? ==>
                  && outcome.val == t.nat_[r.value.n].(lastSeen := now)
                  && ReverseRewritten(d, d', r.value, outcome.val))
    ensures action == if outcome.Delivered? then (if cfg.bridge == 0 then Shot else Redirected(env.redirect)) else Pipe
  {
    var r := ReplyFlow(cfg, d);
    if r.Some? {
      ReplyFlowFieldsOf(cfg, d, r.value);
      TransportAligned(d, r.value);
      FateOf(cfg, r.value, t, d, now, env, t', d', action, outcome);
    }
  }

  lemma TransportAligned(d: seq<byte>, r: Reply)
    requires |d| >= 34 && 0x45 <= d[14] <= 0x4F && r.transportAt == 14 + HeaderLength(d[14])
    ensures 34 <= r.transportAt && r.transportAt % 4 == 2
  {
  }

  lemma FateOf(cfg: DataplaneConfig, r: Reply, t: Tables, d: seq<byte>, now: nat, env: ReverseEnv,
               t': Tables, d': seq<byte>, action: Action, outcome: ReverseOutcome)
    requires ReplyResult(cfg, r, t, d, now, env, t', d', action, outcome) && r.n.proto in {6, 17}
    requires 34 <= r.transportAt && r.transportAt % 4 == 2 && r.transportAt + 4 <= |d|
    requires r.n.proto == 17 ==> r.transportAt + 6 <= |d|
    ensures outcome.Delivered? <==> Deliverable(t, d, r, env)
    ensures outcome.Delivered? ==>
              outcome.val == t.nat_[r.n].(lastSeen := now) && ReverseRewritten(d, d', r, outcome.val)
    ensures action == if outcome.Delivered? then (if cfg.bridge == 0 then Shot else Redirected(env.redirect)) else Pipe
  {
    if Validated(t, r.n, r.src, r.srcPort) && r.n.proto == 17 {
      ZeroTestReadsClientAddress(d, r, t'.nat_[r.n], env);
    }
  }

  // ---------- what the counters show ----------

  /** Which counters a lookup bumps: a hit and its refresh, or a miss with the allocator's
      answer and, if it found a port, whether the mapping was inserted. */
  lemma LookupBumps(cfg: DataplaneConfig, key: FwdKey, selected: u32, t: Tables, cpu: PA.State, c: C.Counters,
                    o: PA.Outcome, m: Option<Mapping>, cpu': PA.State, c': C.Counters)
    requires PA.ValidState(cpu) && LookedUp(cfg, true, key, selected, t, cpu, c, o, m, cpu', c')
    ensures var hit := key in t.fwd;
            && c'.lookupHit == C.Bumped(c.lookupHit, hit) && c'.refreshOk == C.Bumped(c.refreshOk, hit)
            && c'.lookupMiss == C.Bumped(c.lookupMiss, !hit)
            && c'.portAllocOk == C.Bumped(c.portAllocOk, !hit && o.Allocated?)
            && c'.portAllocErr == C.Bumped(c.portAllocErr, !hit && !o.Allocated?)
            && c'.portAllocExhausted == C.Bumped(c.portAllocExhausted, !hit && o.Exhausted?)
            && c'.insertOk == C.Bumped(c.insertOk, !hit && o.Allocated? && m.Some?)
            && c'.insertErr == C.Bumped(c.insertErr, !hit && o.Allocated? && m.None?)
  {
  }

  /** A hit asks the allocator for nothing; a miss asks it once, for the configured range, the
      selected address and the packet's protocol. */
  lemma LookupAllocates(cfg: DataplaneConfig, counting: bool, key: FwdKey, selected: u32, t: Tables, cpu: PA.State,
                        c: C.Counters, o: PA.Outcome, m: Option<Mapping>, cpu': PA.State, c': C.Counters, port: u16)
    requires PA.ValidState(cpu) && LookedUp(cfg, counting, key, selected, t, cpu, c, o, m, cpu', c')
    ensures key in t.fwd ==> cpu' == cpu
    ensures key !in t.fwd ==>
              && (cpu', o) == PA.Alloc(cpu, PA.Call(cfg.portMin, cfg.portMax, PA.Taken(t.nat_, selected, key.proto)))
              && (o == PA.Allocated(port) ==> cfg.portMin <= port <= cfg.portMax
                                              && NatKey(selected, port, key.proto) !in t.nat_)
    ensures !counting ==> c' == c
  {
    if key !in t.fwd {
      var call := PA.Call(cfg.portMin, cfg.portMax, PA.Taken(t.nat_, selected, key.proto));
      PA.AllocGivesFreePort(cpu, call);
      PA.TakenIsNatEntry(t.nat_, selected, key.proto, port);
    }
  }

  /** A packet without a flow costs neither a port nor a count. */
  lemma NoFlowNoLookup(cfg: DataplaneConfig, counting: bool, t: Tables, d: seq<byte>, now: nat, gen: u32,
                       env: ForwardEnv, o: PA.Outcome, t': Tables, d': seq<byte>, action: Action,
                       outcome: ForwardOutcome, cpu: PA.State, c: C.Counters, cpu': PA.State, c': C.Counters)
    requires WellFormed(cfg) && ForwardResult(cfg, t, d, now, gen, env, o, t', d', action, outcome)
    requires PA.ValidState(cpu) && ForwardFlow(cfg, d) == None
    requires Accounted(cfg, counting, ForwardFlow(cfg, d), t, cpu, c, o, outcome, cpu', c')
    ensures cpu' == cpu && c' == c && t' == t
  {
  }
}
