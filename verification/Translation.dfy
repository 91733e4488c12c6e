/** Rewriting one packet: the checksum deltas of both directions and the header
    exchange, on the bytes of the packet. */
module Translation {
  import opened Words
  import opened OnesComplement
  import opened Checksum
  import opened Headers
  import opened Packets

  // ---------- specification ----------

  /** The checksum field moved with the material it covers; it is 0xFFFF only if it was. */
  ghost predicate CheckTracks(before: u16, after: u16, oldPseudo: seq<byte>, newPseudo: seq<byte>,
                              oldPort: u16, newPort: u16)
  {
    && Congruent(after + WordSum(newPseudo) + newPort, before + WordSum(oldPseudo) + oldPort)
    && (after == 0xFFFF ==> before == 0xFFFF)
  }

  /** `t'` is `t` with a new port and a checksum updated for it and the pseudo-header;
      every other transport byte is as it was. */
  ghost predicate TransportRewritten(t: seq<byte>, t': seq<byte>, portAt: nat, newPort: u16, field: nat,
                                     oldPseudo: seq<byte>, newPseudo: seq<byte>)
  {
    && |t'| == |t| && portAt + 2 <= field && field + 2 <= |t|
    && t' == SetWord(SetWord(t, portAt, newPort), field, WordAt(t', field))
    && CheckTracks(WordAt(t, field), WordAt(t', field), oldPseudo, newPseudo, WordAt(t, portAt), newPort)
  }

  lemma {:induction false} VerifiesResidue(pseudo: seq<byte>, seg: seq<byte>)
    requires |pseudo| % 2 == 0 && WordSum(pseudo) > 0
    ensures Verifies(pseudo, seg) <==> Congruent(WordSum(pseudo) + WordSum(seg), 0)
  {
    WordSumConcat(pseudo, seg);
    FoldAllOnes(WordSum(pseudo) + WordSum(seg));
  }

  lemma {:induction false} RewriteSum(t: seq<byte>, t': seq<byte>, n: nat, portAt: nat, newPort: u16, field: nat)
    requires portAt + 2 <= field && field + 2 <= n <= |t| == |t'|
    requires t' == SetWord(SetWord(t, portAt, newPort), field, WordAt(t', field))
    requires portAt % 2 == 0 && field % 2 == 0
    ensures WordSum(t'[..n]) ==
            WordSum(t[..n]) - WordAt(t, portAt) + newPort - WordAt(t, field) + WordAt(t', field)
  {
    var seg, mid := t[..n], SetWord(t[..n], portAt, newPort);
    assert t'[..n] == SetWord(mid, field, WordAt(t', field));
    WordSumSet(seg, portAt, newPort);
    WordSumSet(mid, field, WordAt(t', field));
  }

  /** The delta preserves the receiver's verdict: a segment that verifies still does, a
      corrupted one stays corrupted. `n` bounds the segment inside the rest of the frame. */
  lemma {:induction false} RewriteKeepsVerdict(t: seq<byte>, t': seq<byte>, n: nat, portAt: nat, newPort: u16,
                                               field: nat,
                                               oldPseudo: seq<byte>, newPseudo: seq<byte>)
    requires TransportRewritten(t, t', portAt, newPort, field, oldPseudo, newPseudo)
    requires portAt % 2 == 0 && field % 2 == 0 && field + 2 <= n <= |t|
    requires |oldPseudo| % 2 == 0 && |newPseudo| % 2 == 0 && WordSum(oldPseudo) > 0 && WordSum(newPseudo) > 0
    ensures Verifies(newPseudo, t'[..n]) <==> Verifies(oldPseudo, t[..n])
  {
    RewriteSum(t, t', n, portAt, newPort, field);
    VerifiesResidue(oldPseudo, t[..n]);
    VerifiesResidue(newPseudo, t'[..n]);
    SameVerdict(WordSum(newPseudo) + WordSum(t'[..n]), WordSum(oldPseudo) + WordSum(t[..n]),
                WordAt(t', field) + WordSum(newPseudo) + newPort,
                WordAt(t, field) + WordSum(oldPseudo) + WordAt(t, portAt));
  }

  lemma {:induction false} SameVerdict(a: int, b: int, x: int, y: int)
    requires a - b == x - y && Congruent(x, y)
    ensures Congruent(a, 0) <==> Congruent(b, 0)
  {
    var q := Quotient(x, y);
    if Congruent(b, 0) {
      var p := Quotient(b, 0);
      CongruentBy(a, 0, p + q);
    }
    if Congruent(a, 0) {
      var p := Quotient(a, 0);
      CongruentBy(b, 0, p - q);
    }
  }

  /** What the updated field holds: for a segment that verified, and no other, the full
      recomputation's checksum, or 0 in place of 0xFFFF. Only a segment that arrived with
      0xFFFF can leave with it; from any other, one that verified leaves with 0, which in UDP
      means no checksum at all, exactly when the right checksum is 0xFFFF. */
  lemma {:induction false} DeltaStores(t: seq<byte>, t': seq<byte>, n: nat, portAt: nat, newPort: u16, field: nat,
                                       oldPseudo: seq<byte>, newPseudo: seq<byte>)
    requires TransportRewritten(t, t', portAt, newPort, field, oldPseudo, newPseudo)
    requires portAt % 2 == 0 && field % 2 == 0 && field + 2 <= n <= |t|
    requires |oldPseudo| % 2 == 0 && |newPseudo| % 2 == 0 && WordSum(oldPseudo) > 0 && WordSum(newPseudo) > 0
    ensures var after, right := WordAt(t', field), TransportChecksum(newPseudo, t'[..n], field);
            && (Verifies(oldPseudo, t[..n]) <==> after == right || (after == 0 && right == 0xFFFF))
            && (WordAt(t, field) != 0xFFFF ==>
                  (Verifies(oldPseudo, t[..n]) <==> after == if right == 0xFFFF then 0 else right))
  {
    RewriteKeepsVerdict(t, t', n, portAt, newPort, field, oldPseudo, newPseudo);
    VerifiesIff(newPseudo, t'[..n], field);
    assert WordAt(t'[..n], field) == WordAt(t', field);
  }

  // ---------- the two checksum deltas ----------

  /** The checksum field after a delta that went as far as `fault` let it. */
  ghost predicate FieldLeft(fault: CsumFault, before: u16, after: u16, oldPseudo: seq<byte>, newPseudo: seq<byte>,
                            oldPort: u16, newPort: u16)
  {
    match fault
    case DiffFails => after == before
    case PseudoFails => after == before
    case PortFails => Updated(after, before, WordSum(oldPseudo), WordSum(newPseudo), false)
    case _ => CheckTracks(before, after, oldPseudo, newPseudo, oldPort, newPort)
  }

  /** What a delta does to the bytes `d` with its field at `off`, finished or not. */
  ghost predicate DeltaLeaves(d: seq<byte>, d': seq<byte>, off: nat, fault: CsumFault,
                              oldPseudo: seq<byte>, newPseudo: seq<byte>, oldPort: u16, newPort: u16)
  {
    && OnlyWord(d, d', off)
    && if off + 2 <= |d| then FieldLeft(fault, WordAt(d, off), WordAt(d', off), oldPseudo, newPseudo, oldPort, newPort)
       else d' == d
  }

  predicate DeltaSucceeds(fault: CsumFault, mangles: bool) {
    fault == NoFault || (fault == MangleFails && !mangles)
  }

  lemma {:induction false} ChainTracks(c0: u16, c1: u16, c2: u16, oldPseudo: seq<byte>, newPseudo: seq<byte>,
                                       op: u16, np: u16)
    requires Updated(c1, c0, WordSum(oldPseudo), WordSum(newPseudo), false) && Updated(c2, c1, op, np, false)
    ensures CheckTracks(c0, c2, oldPseudo, newPseudo, op, np)
  {
    ChainCongruent(c0, c1, c2, WordSum(oldPseudo), WordSum(newPseudo), op, np);
  }

  lemma {:induction false} ChainCongruent(c0: int, c1: int, c2: int, oldSum: int, newSum: int, op: int, np: int)
    requires Congruent(c1 + newSum, c0 + oldSum) && Congruent(c2 + np, c1 + op)
    ensures Congruent(c2 + newSum + np, c0 + oldSum + op)
  {
    var p := Quotient(c1 + newSum, c0 + oldSum);
    var q := Quotient(c2 + np, c1 + op);
    CongruentBy(c2 + newSum + np, c0 + oldSum + op, p + q);
  }

  /** The closing replacement of both UDP paths changes nothing: a zero field is left alone
      and any other keeps its value. */
  lemma {:induction false} MarkStepIsIdentity(field: u16, before: u16, from: u16, to: u16)
    requires Updated(field, before, from, to, true) && from == 0 && to in {0, 0xFFFF}
    ensures field == before
  {
    if before != 0 {
      var q := Quotient(field + to, before + from);
      assert field == before;
    }
  }

  /** The steps both directions share: pseudo-header, port, and for UDP the closing
      replacement with the mangled-zero mark. */
  method ApplyDelta(skb: Skb, off: nat, oldPseudo: seq<byte>, newPseudo: seq<byte>, oldPort: u16, newPort: u16,
                    mangles: bool, mangleTo: u16, fault: CsumFault)
    returns (ok: bool)
    requires mangleTo in {0, 0xFFFF}
    modifies skb
    ensures ok <==> off + 2 <= |old(skb.data)| && DeltaSucceeds(fault, mangles)
    ensures DeltaLeaves(old(skb.data), skb.data, off, fault, oldPseudo, newPseudo, oldPort, newPort)
  {
    var diff := CsumDiff(oldPseudo, newPseudo, skb.little, fault == DiffFails);
    if diff == None {
      return false;
    }
    ghost var d0 := skb.data;
    ok := skb.ReplacePseudo(off, diff.value, oldPseudo, newPseudo, fault == PseudoFails);
    if !ok {
      return;
    }
    ghost var d1 := skb.data;
    ok := skb.ReplacePort(off, oldPort, newPort, false, fault == PortFails);
    if !ok {
      return;
    }
    ghost var d2 := skb.data;
    ChainTracks(WordAt(d0, off), WordAt(d1, off), WordAt(d2, off), oldPseudo, newPseudo, oldPort, newPort);
    if mangles {
      ok := skb.ReplacePort(off, 0, mangleTo, true, fault == MangleFails);
      if ok {
        MarkStepIsIdentity(WordAt(skb.data, off), WordAt(d2, off), 0, mangleTo);
      }
    }
  }

  method ApplyDeltaV6ToV4(skb: Skb, off: nat, len: u16, proto: byte, oldSrc: Addr6, oldDst: Addr6,
                          newSrc: u32, newDst: u32, oldPort: u16, newPort: u16, udp: bool, fault: CsumFault)
    returns (ok: bool)
    modifies skb
    ensures ok <==> off + 2 <= |old(skb.data)| && DeltaSucceeds(fault, udp)
    ensures DeltaLeaves(old(skb.data), skb.data, off, fault, Ipv6Pseudo(oldSrc, oldDst, len, proto),
                        Ipv4Pseudo(newSrc, newDst, len, proto), oldPort, newPort)
  {
    if Load16(skb.data, off) == None {
      return false;
    }
    ok := ApplyDelta(skb, off, Ipv6Pseudo(oldSrc, oldDst, len, proto), Ipv4Pseudo(newSrc, newDst, len, proto),
                     oldPort, newPort, udp, 0xFFFF, fault);
  }

  method ApplyDeltaV4ToV6(skb: Skb, off: nat, len: u16, proto: byte, oldSrc: u32, oldDst: u32,
                          newSrc: Addr6, newDst: Addr6, oldPort: u16, newPort: u16, udp: bool, fault: CsumFault)
    returns (ok: bool)
    modifies skb
    ensures ok <==> off + 2 <= |old(skb.data)| && DeltaSucceeds(fault, udp)
    ensures DeltaLeaves(old(skb.data), skb.data, off, fault, Ipv4Pseudo(oldSrc, oldDst, len, proto),
                        Ipv6Pseudo(newSrc, newDst, len, proto), oldPort, newPort)
  {
    ok := ApplyDelta(skb, off, Ipv4Pseudo(oldSrc, oldDst, len, proto), Ipv6Pseudo(newSrc, newDst, len, proto),
                     oldPort, newPort, udp, 0, fault);
  }

  // ---------- IPv6 to IPv4 ----------

  /** The frame after the protocol change and the new Ethernet type. */
  function Stripped(d: seq<byte>): seq<byte>
    requires |d| >= 34
  {
    d[..12] + [0x08, 0x00] + d[34..]
  }

  method StripToIpv4(skb: Skb, fails: bool) returns (ok: bool)
    requires |skb.data| >= 54
    modifies skb
    ensures ok == !fails
    ensures skb.data == if ok then Stripped(old(skb.data)) else old(skb.data)
  {
    ok := skb.ChangeProtoToIpv4(fails);
    if ok {
      ok := skb.Store(12, Be16Bytes(ETH_P_IP));
    }
  }

  function FieldOf(proto: byte): nat {
    if proto == PROTO_TCP then TCP_FIELD else UDP_FIELD
  }

  /** Header, source port and checksum of the stripped frame. */
  method RewriteToIpv4(skb: Skb, len: u16, extV4: u32, extPort: u16, remoteV4: u32, proto: byte,
                       src: Addr6, dst: Addr6, oldPort: u16, fault: CsumFault)
    returns (ok: bool)
    requires |skb.data| >= 38 && len <= 1500 && WordAt(skb.data, 34) == oldPort
    modifies skb
    ensures ok <==> 34 + FieldOf(proto) + 2 <= |old(skb.data)| && DeltaSucceeds(fault, proto != PROTO_TCP)
    ensures |skb.data| == |old(skb.data)| && skb.data[..14] == old(skb.data)[..14]
    ensures skb.data[14..34] == Ipv4Header(len + 20, 0, 64, proto, Be32Bytes(extV4), Be32Bytes(remoteV4))
    ensures DeltaLeaves(SetWord(old(skb.data)[34..], 0, extPort), skb.data[34..], FieldOf(proto), fault,
                        Ipv6Pseudo(src, dst, len, proto), Ipv4Pseudo(extV4, remoteV4, len, proto), oldPort, extPort)
    ensures ok ==> TransportRewritten(old(skb.data)[34..], skb.data[34..], 0, extPort, FieldOf(proto),
                                      Ipv6Pseudo(src, dst, len, proto), Ipv4Pseudo(extV4, remoteV4, len, proto))
  {
    ghost var d0 := skb.data;
    var header := WireIpv4Header(len, extV4, remoteV4, proto);
    WriteIpv4AndPort(skb, header.value, extPort);
    ghost var d1 := skb.data;
    ok := ApplyDeltaV6ToV4(skb, 34 + FieldOf(proto), len, proto, src, dst, extV4, remoteV4, oldPort, extPort,
                           proto != PROTO_TCP, fault);
    DeltaBehind(d1, skb.data, FieldOf(proto), fault, Ipv6Pseudo(src, dst, len, proto),
                Ipv4Pseudo(extV4, remoteV4, len, proto), oldPort, extPort);
    if ok {
      AfterDelta(d0[34..], d1[34..], skb.data[34..], 0, extPort, FieldOf(proto));
    }
  }

  method WriteIpv4AndPort(skb: Skb, header: seq<byte>, newPort: u16)
    requires |skb.data| >= 36 && |header| == 20
    modifies skb
    ensures |skb.data| == |old(skb.data)| && skb.data[..14] == old(skb.data)[..14]
    ensures skb.data[14..34] == header && skb.data[34..] == SetWord(old(skb.data)[34..], 0, newPort)
  {
    ghost var d0 := skb.data;
    var ok := skb.Store(14, header);
    ghost var d1 := skb.data;
    assert d1[34..] == d0[34..] && d1[14..34] == header && d1[..14] == d0[..14];
    ok := skb.Store(34, Be16Bytes(newPort));
    assert skb.data[34..] == SetWord(d0[34..], 0, newPort) && skb.data[..34] == d1[..34];
    assert skb.data[..34][14..] == skb.data[14..34] && d1[..34][14..] == d1[14..34];
  }

  /** A delta behind the IPv4 header leaves what is before it alone, and is one on the rest. */
  lemma {:induction false} DeltaBehind(d: seq<byte>, d': seq<byte>, field: nat, fault: CsumFault,
                                       oldPseudo: seq<byte>, newPseudo: seq<byte>, oldPort: u16, newPort: u16)
    requires |d| >= 34 && DeltaLeaves(d, d', 34 + field, fault, oldPseudo, newPseudo, oldPort, newPort)
    ensures d'[..14] == d[..14] && d'[14..34] == d[14..34]
    ensures DeltaLeaves(d[34..], d'[34..], field, fault, oldPseudo, newPseudo, oldPort, newPort)
  {
    if 34 + field + 2 <= |d| {
      FieldBehind(d, field);
      FieldBehind(d', field);
    }
  }

  lemma FieldBehind(d: seq<byte>, field: nat)
    requires 34 + field + 2 <= |d|
    ensures WordAt(d[34..], field) == WordAt(d, 34 + field)
  {
  }

  /** A delta that only touched the checksum field leaves the port rewrite in place. */
  lemma {:induction false} AfterDelta(t: seq<byte>, mid: seq<byte>, t': seq<byte>, portAt: nat, newPort: u16,
                                      field: nat)
    requires portAt + 2 <= field && field + 2 <= |t| && mid == SetWord(t, portAt, newPort)
    requires OnlyWord(mid, t', field)
    ensures t' == SetWord(mid, field, WordAt(t', field)) && WordAt(mid, field) == WordAt(t, field)
  {
  }

  // ---------- IPv4 to IPv6 ----------

  function Grown(d: seq<byte>, filler: seq<byte>): seq<byte>
    requires |d| >= 14
  {
    d[..12] + [0x86, 0xDD] + filler + d[14..]
  }

  method GrowToIpv6(skb: Skb, fails: bool, filler: seq<byte>) returns (ok: bool)
    requires |skb.data| >= 14 && |filler| == 20
    modifies skb
    ensures ok == !fails
    ensures skb.data == if ok then Grown(old(skb.data), filler) else old(skb.data)
  {
    ok := skb.ChangeProtoToIpv6(fails, filler);
    if ok {
      ok := skb.Store(12, Be16Bytes(ETH_P_IPV6));
    }
  }

  /** Header and destination port of the grown frame; the transport header is taken to
      start at offset 54, whatever the IPv4 header length was. */
  method WriteIpv6AndPort(skb: Skb, len: u16, proto: byte, src: Addr6, dst: Addr6, newPort: u16)
    requires |skb.data| >= 58
    modifies skb
    ensures |skb.data| == |old(skb.data)| && skb.data[..14] == old(skb.data)[..14]
    ensures skb.data[14..54] == Ipv6Header(len, proto, 64, src, dst)
    ensures skb.data[54..] == SetWord(old(skb.data)[54..], 2, newPort)
  {
    ghost var d0 := skb.data;
    var ok := skb.Store(14, Ipv6Header(len, proto, 64, src, dst));
    ghost var d1 := skb.data;
    assert d1[54..] == d0[54..] && d1[14..54] == Ipv6Header(len, proto, 64, src, dst) && d1[..14] == d0[..14];
    ok := skb.Store(56, Be16Bytes(newPort));
    assert skb.data[54..] == SetWord(d0[54..], 2, newPort) && skb.data[..54] == d1[..54];
    assert skb.data[..54][14..] == skb.data[14..54] && d1[..54][14..] == d1[14..54];
  }
}
