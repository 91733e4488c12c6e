/** The fixed-size IPv4 and IPv6 headers: the reference builders and the values the
    dataplane writes straight into the packet. */
module Headers {
  import opened Words
  import opened OnesComplement
  import opened Checksum

  const IPV4_HDR_LEN: nat := 20
  const TTL: byte := 64

  type Addr4 = a: seq<byte> | |a| == 4 witness [0, 0, 0, 0]

  // ---------- specification ----------

  type Pair = p: seq<byte> | |p| == 2 witness [0, 0]

  /** The twenty bytes of an IPv4 header without options, field by field. */
  function Layout(len: Pair, id: Pair, ttlProto: Pair, check: Pair, src: Addr4, dst: Addr4): (h: seq<byte>)
    ensures |h| == 20
  {
    [0x45, 0] + len + id + [0, 0] + ttlProto + check + src + dst
  }

  /** The IPv4 header with `check` in its checksum field. */
  function Ipv4With(check: u16, totalLen: u16, id: u16, ttl: byte, proto: byte, src: Addr4, dst: Addr4): (h: seq<byte>)
    ensures |h| == 20
  {
    Layout(Be16Bytes(totalLen), Be16Bytes(id), [ttl, proto], Be16Bytes(check), src, dst)
  }

  /** The checksum-complete header. */
  function Ipv4Header(totalLen: u16, id: u16, ttl: byte, proto: byte, src: Addr4, dst: Addr4): (h: seq<byte>)
    ensures |h| == 20
  {
    Ipv4With(Complement(FlatSum(Ipv4With(0, totalLen, id, ttl, proto, src, dst))), totalLen, id, ttl, proto, src, dst)
  }

  function Ipv6Header(payloadLen: u16, nextHeader: byte, hopLimit: byte, src: Addr6, dst: Addr6): (h: seq<byte>)
    ensures |h| == 40
  {
    [0x60, 0, 0, 0] + Be16Bytes(payloadLen) + [nextHeader, hopLimit] + src + dst
  }

  // ---------- sums ----------

  lemma TwoBytes(w: u16)
    ensures WordSum(Be16Bytes(w)) == w
  {
    var b := Be16Bytes(w);
    WordSumPair(b[0], b[1]);
  }

  lemma LayoutSum(len: Pair, id: Pair, ttlProto: Pair, check: Pair, src: Addr4, dst: Addr4)
    ensures WordSum(Layout(len, id, ttlProto, check, src, dst)) ==
            0x4500 + WordSum(len) + WordSum(id) + WordSum(ttlProto) + WordSum(check) + WordSum(src) + WordSum(dst)
  {
    var a := [0x45, 0] + len + id;
    var b := [0, 0] + ttlProto + check;
    assert Layout(len, id, ttlProto, check, src, dst) == a + b + (src + dst);
    ThreePairs([0x45, 0], len, id);
    ThreePairs([0, 0], ttlProto, check);
    WordSumPair(0x45, 0);
    WordSumPair(0, 0);
    WordSumConcat(a + b, src + dst);
    WordSumConcat(a, b);
    WordSumConcat(src, dst);
  }

  lemma ThreePairs(a: Pair, b: Pair, c: Pair)
    ensures WordSum(a + b + c) == WordSum(a) + WordSum(b) + WordSum(c)
  {
    WordSumConcat(a + b, c);
    WordSumConcat(a, b);
  }

  lemma Ipv4Sum(check: u16, totalLen: u16, id: u16, ttl: byte, proto: byte, src: Addr4, dst: Addr4)
    ensures WordSum(Ipv4With(check, totalLen, id, ttl, proto, src, dst)) ==
            0x4500 + totalLen + id + Be16(ttl, proto) + check + WordSum(src) + WordSum(dst)
  {
    LayoutSum(Be16Bytes(totalLen), Be16Bytes(id), [ttl, proto], Be16Bytes(check), src, dst);
    TwoBytes(totalLen);
    TwoBytes(id);
    TwoBytes(check);
    WordSumPair(ttl, proto);
  }

  lemma Ipv4Flat(check: u16, totalLen: u16, id: u16, ttl: byte, proto: byte, src: Addr4, dst: Addr4)
    ensures FlatSum(Ipv4With(check, totalLen, id, ttl, proto, src, dst)) ==
            Fold(0x4500 + totalLen + id + Be16(ttl, proto) + check + WordSum(src) + WordSum(dst))
  {
    Ipv4Sum(check, totalLen, id, ttl, proto, src, dst);
  }

  lemma ClosedByCheck(zero: u16, check: u16, totalLen: u16, id: u16, ttl: byte, proto: byte, src: Addr4, dst: Addr4)
    requires zero == 0 && check == Complement(FlatSum(Ipv4With(zero, totalLen, id, ttl, proto, src, dst)))
    ensures FlatSum(Ipv4With(check, totalLen, id, ttl, proto, src, dst)) == 0xFFFF
  {
    var rest := FieldSum(totalLen, id, ttl, proto, src, dst);
    FlatOfRest(zero, totalLen, id, ttl, proto, src, dst);
    FlatOfRest(check, totalLen, id, ttl, proto, src, dst);
    ComplementCloses(rest);
  }

  /** The sum of all fields but the checksum. */
  function FieldSum(totalLen: u16, id: u16, ttl: byte, proto: byte, src: Addr4, dst: Addr4): nat {
    0x4500 + totalLen + id + Be16(ttl, proto) + WordSum(src) + WordSum(dst)
  }

  lemma FlatOfRest(check: u16, totalLen: u16, id: u16, ttl: byte, proto: byte, src: Addr4, dst: Addr4)
    ensures FlatSum(Ipv4With(check, totalLen, id, ttl, proto, src, dst)) ==
            Fold(FieldSum(totalLen, id, ttl, proto, src, dst) + check)
  {
    Ipv4Sum(check, totalLen, id, ttl, proto, src, dst);
  }

  /** A receiver's sum over the complete header folds to 0xFFFF. */
  lemma Ipv4HeaderVerifies(totalLen: u16, id: u16, ttl: byte, proto: byte, src: Addr4, dst: Addr4)
    ensures FlatSum(Ipv4Header(totalLen, id, ttl, proto, src, dst)) == 0xFFFF
  {
    var check := Complement(FlatSum(Ipv4With(0, totalLen, id, ttl, proto, src, dst)));
    ClosedByCheck(0, check, totalLen, id, ttl, proto, src, dst);
  }

  // ---------- byte by byte ----------

  lemma LayoutBytes(len: Pair, id: Pair, ttlProto: Pair, check: Pair, src: Addr4, dst: Addr4)
    ensures var h := Layout(len, id, ttlProto, check, src, dst);
            && h[0] == 0x45 && h[1] == 0 && h[2] == len[0] && h[3] == len[1] && h[4] == id[0] && h[5] == id[1]
            && h[6] == 0 && h[7] == 0 && h[8] == ttlProto[0] && h[9] == ttlProto[1]
            && h[10] == check[0] && h[11] == check[1] && h[12..16] == src && h[16..20] == dst
  {
  }

  lemma Ipv4WithBytes(check: u16, totalLen: u16, id: u16, ttl: byte, proto: byte, src: Addr4, dst: Addr4)
    ensures var h := Ipv4With(check, totalLen, id, ttl, proto, src, dst);
            && h[0] == 0x45 && h[1] == 0 && Be16(h[2], h[3]) == totalLen && Be16(h[4], h[5]) == id
            && h[6] == 0 && h[7] == 0 && h[8] == ttl && h[9] == proto && Be16(h[10], h[11]) == check
            && h[12..16] == src && h[16..20] == dst
  {
    LayoutBytes(Be16Bytes(totalLen), Be16Bytes(id), [ttl, proto], Be16Bytes(check), src, dst);
  }

  /** Where each field of the finished IPv4 header lies: version 4 with five words, no
      service class, total length, identification, no fragment bits, time to live,
      protocol, checksum and the two addresses. The checksum is the one that closes the sum. */
  lemma Ipv4HeaderBytes(totalLen: u16, id: u16, ttl: byte, proto: byte, src: Addr4, dst: Addr4)
    ensures var h := Ipv4Header(totalLen, id, ttl, proto, src, dst);
            && h[0] == 0x45 && h[1] == 0 && Be16(h[2], h[3]) == totalLen && Be16(h[4], h[5]) == id
            && h[6] == 0 && h[7] == 0 && h[8] == ttl && h[9] == proto
            && h[12..16] == src && h[16..20] == dst && FlatSum(h) == 0xFFFF
  {
    var check := Complement(FlatSum(Ipv4With(0, totalLen, id, ttl, proto, src, dst)));
    Ipv4WithBytes(check, totalLen, id, ttl, proto, src, dst);
    Ipv4HeaderVerifies(totalLen, id, ttl, proto, src, dst);
  }

  /** And of the IPv6 header: version 6 with no class or flow label, payload length, next
      header, hop limit and the two addresses. */
  lemma Ipv6HeaderBytes(payloadLen: u16, nextHeader: byte, hopLimit: byte, src: Addr6, dst: Addr6)
    ensures var h := Ipv6Header(payloadLen, nextHeader, hopLimit, src, dst);
            && h[0] == 0x60 && h[1] == 0 && h[2] == 0 && h[3] == 0 && Be16(h[4], h[5]) == payloadLen
            && h[6] == nextHeader && h[7] == hopLimit && h[8..24] == src && h[24..40] == dst
  {
  }

  // ---------- the reference builders ----------

  lemma InsertCheck(len: Pair, id: Pair, ttlProto: Pair, before: Pair, after: Pair, src: Addr4, dst: Addr4)
    ensures CopyInto(Layout(len, id, ttlProto, before, src, dst), 10, after) ==
            Layout(len, id, ttlProto, after, src, dst)
  {
  }

  method FillIpv4Fields(src: Addr4, dst: Addr4, len: Pair, ttl: byte, id: Pair, proto: byte) returns (hdr: seq<byte>)
    ensures hdr == Layout(len, id, [ttl, proto], [0, 0], src, dst)
  {
    hdr := Zeros(20);
    hdr := hdr[0 := 0x45];
    hdr := hdr[1 := 0];
    hdr := CopyInto(hdr, 2, len);
    assert hdr == [0x45, 0] + len + Zeros(16);
    hdr := CopyInto(hdr, 4, id);
    assert hdr == [0x45, 0] + len + id + Zeros(14);
    hdr := CopyInto(hdr, 6, [0, 0]);
    hdr := hdr[8 := ttl];
    hdr := hdr[9 := proto];
    assert hdr == [0x45, 0] + len + id + [0, 0] + [ttl, proto] + Zeros(10);
    hdr := CopyInto(hdr, 12, src);
    assert hdr == [0x45, 0] + len + id + [0, 0] + [ttl, proto] + [0, 0] + src + Zeros(4);
    hdr := CopyInto(hdr, 16, dst);
  }

  method BuildIpv4Header(src: Addr4, dst: Addr4, totalLen: u16, ttl: byte, id: u16,
                         proto: byte) returns (hdr: seq<byte>)
    ensures hdr == Ipv4Header(totalLen, id, ttl, proto, src, dst)
  {
    var len, ident := Be16Bytes(totalLen), Be16Bytes(id);
    hdr := FillIpv4Fields(src, dst, len, ttl, ident, proto);
    assert hdr == Ipv4With(0, totalLen, id, ttl, proto, src, dst);
    var checksum := Ipv4HeaderChecksum20b(hdr);
    InsertCheck(len, ident, [ttl, proto], [0, 0], Be16Bytes(checksum), src, dst);
    hdr := CopyInto(hdr, 10, Be16Bytes(checksum));
  }

  method BuildIpv4HeaderTcp(src: Addr4, dst: Addr4, totalLen: u16, ttl: byte, id: u16) returns (hdr: seq<byte>)
    ensures hdr == Ipv4Header(totalLen, id, ttl, 6, src, dst) && FlatSum(hdr) == 0xFFFF
  {
    hdr := BuildIpv4Header(src, dst, totalLen, ttl, id, PROTO_TCP);
    Ipv4HeaderVerifies(totalLen, id, ttl, 6, src, dst);
  }

  method BuildIpv4HeaderUdp(src: Addr4, dst: Addr4, totalLen: u16, ttl: byte, id: u16) returns (hdr: seq<byte>)
    ensures hdr == Ipv4Header(totalLen, id, ttl, 17, src, dst) && FlatSum(hdr) == 0xFFFF
  {
    hdr := BuildIpv4Header(src, dst, totalLen, ttl, id, PROTO_UDP);
    Ipv4HeaderVerifies(totalLen, id, ttl, 17, src, dst);
  }

  method BuildIpv6Header(src: Addr6, dst: Addr6, payloadLen: u16, hopLimit: byte, proto: byte) returns (hdr: seq<byte>)
    ensures hdr == Ipv6Header(payloadLen, proto, hopLimit, src, dst)
  {
    hdr := Zeros(40);
    hdr := hdr[0 := 0x60];
    hdr := CopyInto(hdr, 4, Be16Bytes(payloadLen));
    hdr := hdr[6 := proto];
    hdr := hdr[7 := hopLimit];
    assert hdr == [0x60, 0, 0, 0] + Be16Bytes(payloadLen) + [proto, hopLimit] + Zeros(32);
    hdr := CopyInto(hdr, 8, src);
    hdr := CopyInto(hdr, 24, dst);
  }

  // ---------- the dataplane's header ----------

  /** The straight-line header: its checksum is summed from the fields, not from bytes.
      None when the total length does not fit 16 bits. */
  method WireIpv4Header(payloadLen: u16, srcV4: u32, dstV4: u32, proto: byte) returns (r: Option<seq<byte>>)
    ensures r == if payloadLen + 20 < 0x1_0000
                 then Some(Ipv4Header(payloadLen + 20, 0, 64, proto, Be32Bytes(srcV4), Be32Bytes(dstV4)))
                 else None
  {
    if payloadLen + IPV4_HDR_LEN >= 0x1_0000 {
      return None;
    }
    var totalLen: u16 := payloadLen + IPV4_HDR_LEN;
    var s, d := Be32Bytes(srcV4), Be32Bytes(dstV4);
    Words4Sum(s);
    Words4Sum(d);
    var checksum := WireChecksum(totalLen, 0, TTL, srcV4, dstV4, proto, s, d);
    r := Some(Layout(Be16Bytes(totalLen), Be16Bytes(0), [TTL, proto], Be16Bytes(checksum), s, d));
  }

  /** The two words of an address. */
  function Halves(v: u32): nat {
    WordsOf(v).0 + WordsOf(v).1
  }

  /** The header sum taken from the fields themselves, folded straight-line; the
      identification is zero and is not added. */
  method WireChecksum(totalLen: u16, id: u16, ttl: byte, srcV4: u32, dstV4: u32, proto: byte,
                      ghost src: Addr4, ghost dst: Addr4)
    returns (checksum: u16)
    requires id == 0 && WordSum(src) == Halves(srcV4) && WordSum(dst) == Halves(dstV4)
    ensures checksum == Complement(FlatSum(Ipv4With(0, totalLen, id, ttl, proto, src, dst)))
  {
    var folded := FoldFields(totalLen, Be16(ttl, proto), srcV4, dstV4);
    Ipv4Flat(0, totalLen, id, ttl, proto, src, dst);
    checksum := Complement(folded);
  }

  method FoldFields(totalLen: u16, ttlProto: u16, srcV4: u32, dstV4: u32) returns (folded: u16)
    ensures folded == Fold(0x4500 + totalLen + ttlProto + Halves(srcV4) + Halves(dstV4))
  {
    WordsByShift(srcV4);
    WordsByShift(dstV4);
    var sum := WrappingAdd32(0, 0x4500);
    sum := WrappingAdd32(sum, totalLen);
    sum := WrappingAdd32(sum, ttlProto);
    sum := WrappingAdd32(sum, srcV4 / 0x1_0000);
    sum := WrappingAdd32(sum, srcV4 % 0x1_0000);
    sum := WrappingAdd32(sum, dstV4 / 0x1_0000);
    sum := WrappingAdd32(sum, dstV4 % 0x1_0000);
    folded := FoldU32Fixed(sum);
  }
}
