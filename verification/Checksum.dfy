/** The checksum helpers: `checksum16`, the IPv4 header checksum and the four
    transport checksums, each proved against one flat one's-complement sum. */
module Checksum {
  import opened Words
  import opened OnesComplement

  const PROTO_TCP: byte := 6
  const PROTO_UDP: byte := 17
  const TCP_FIELD: nat := 16
  const UDP_FIELD: nat := 6

  // ---------- specification ----------

  /** `checksum16` of a byte string, without any width limit. */
  function FlatSum(d: seq<byte>): u16 {
    Fold(WordSum(d))
  }

  function NonZero(w: u16): u16 {
    if w == 0 then 0xFFFF else w
  }

  /** The segment with the two checksum bytes read as zero, where they are present. */
  function ZeroField(seg: seq<byte>, field: nat): (z: seq<byte>)
    ensures |z| == |seg|
  {
    seq(|seg|, i requires 0 <= i < |seg| => if i == field || i == field + 1 then 0 else seg[i])
  }

  function Ipv4Pseudo(src: u32, dst: u32, len: u16, proto: byte): (p: seq<byte>)
    ensures |p| == 12
  {
    Be32Bytes(src) + Be32Bytes(dst) + [0, proto] + Be16Bytes(len)
  }

  type Addr6 = a: seq<byte> | |a| == 16 witness seq(16, _ => 0)

  function Ipv6Pseudo(src: Addr6, dst: Addr6, len: u16, proto: byte): (p: seq<byte>)
    ensures |p| == 40
  {
    src + dst + [0, 0] + Be16Bytes(len) + [0, 0, 0, proto]
  }

  /** The transport checksum: one flat sum over pseudo-header and zeroed segment. */
  function TransportChecksum(pseudo: seq<byte>, seg: seq<byte>, field: nat): u16 {
    NonZero(Complement(FlatSum(pseudo + ZeroField(seg, field))))
  }

  /** What a receiver computes: the sum over everything, stored checksum included. */
  predicate Verifies(pseudo: seq<byte>, seg: seq<byte>) {
    FlatSum(pseudo + seg) == 0xFFFF
  }

  // ---------- sums ----------

  /** The accumulator wraps at 32 bits, so this is exact for slices of every length. */
  method Checksum16WithSeed(data: seq<byte>, seed: u32) returns (r: u16)
    ensures r == Fold(Wrap32(seed + WordSum(data)))
  {
    var sum := seed;
    var i := 0;
    assert data[..0] == [];
    while i + 1 < |data|
      invariant i % 2 == 0 && i <= |data|
      invariant sum == Wrap32(seed + WordSum(data[..i]))
    {
      AccumulateNext(seed, data, i);
      sum := WrappingAdd32(sum, Be16(data[i], data[i + 1]));
      i := i + 2;
    }
    if i < |data| {
      AccumulateLast(seed, data, i);
      sum := WrappingAdd32(sum, Be16(data[i], 0));
    } else {
      assert data[..i] == data;
    }
    r := FoldSum(sum);
  }

  method Checksum16(data: seq<byte>) returns (r: u16)
    ensures r == Fold(Wrap32(WordSum(data)))
    ensures |data| <= 131074 ==> r == FlatSum(data)
  {
    r := Checksum16WithSeed(data, 0);
    WordSumBound(data);
  }

  function AllOnes(n: nat): seq<byte> {
    seq(n, _ => 0xFF)
  }

  lemma {:induction false} AllOnesSum(n: nat)
    ensures WordSum(AllOnes(n)) == 0xFFFF * (n / 2) + n % 2 * 0xFF00
  {
    if n > 1 {
      assert AllOnes(n)[2..] == AllOnes(n - 2);
      AllOnesSum(n - 2);
    }
  }

  /** An all-ones slice folds right exactly when the carries lost by the 32-bit
      accumulator are a multiple of 65535. */
  lemma {:induction false} AllOnesFold(n: nat)
    requires n > 0
    ensures var sum := 0xFFFF * (n / 2) + n % 2 * 0xFF00;
            Fold(Wrap32(WordSum(AllOnes(n)))) == FlatSum(AllOnes(n))
            <==> sum / 0x1_0000_0000 % 0xFFFF == 0 && Wrap32(sum) != 0
  {
    AllOnesSum(n);
    WrapKeepsFoldIff(WordSum(AllOnes(n)));
  }

  /** 131074 bytes is tight: 65537 words of 0xFFFF fill the accumulator exactly, and
      every longer all-ones slice below 8 GiB gives a wrong sum. */
  lemma {:induction false} AccumulatorBoundIsTight(n: nat)
    requires 0 < n < 0x1_FFFF_FFFE
    ensures Fold(Wrap32(WordSum(AllOnes(n)))) == FlatSum(AllOnes(n)) <==> n <= 131074
  {
    AllOnesFold(n);
    var sum: int := 0xFFFF * (n / 2) + n % 2 * 0xFF00;
    if n <= 131074 {
      assert 0 < sum < 0x1_0000_0000;
    } else {
      assert 0x1_0000_0000 <= sum < 0xFFFF * 0x1_0000_0000;
      assert 0 < sum / 0x1_0000_0000 < 0xFFFF;
    }
  }

  method Ipv4HeaderChecksum20b(hdr: seq<byte>) returns (r: u16)
    requires |hdr| == 20
    ensures r == Complement(FlatSum(hdr))
  {
    var sum := Checksum16(hdr);
    r := Complement(sum);
  }

  // ---------- pseudo-headers ----------

  method BuildIpv4PseudoHeaderBytes(src: u32, dst: u32, len: u16, proto: byte) returns (p: seq<byte>)
    ensures p == Ipv4Pseudo(src, dst, len, proto)
  {
    p := CopyInto(Zeros(12), 0, Be32Bytes(src));
    p := CopyInto(p, 4, Be32Bytes(dst));
    assert p == Be32Bytes(src) + Be32Bytes(dst) + Zeros(4);
    p := p[9 := proto];
    assert p == Be32Bytes(src) + Be32Bytes(dst) + [0, proto, 0, 0];
    p := CopyInto(p, 10, Be16Bytes(len));
  }

  /** A 16-bit length as a 32-bit one: two zero bytes in front. */
  lemma WideLength(len: u16)
    ensures Be32Bytes(len) == [0, 0] + Be16Bytes(len)
  {
    var b := [0, 0] + Be16Bytes(len);
    BytesOfValue(len, b);
  }

  method BuildIpv6PseudoHeaderBytes(src: Addr6, dst: Addr6, len: u16, proto: byte) returns (p: seq<byte>)
    ensures p == Ipv6Pseudo(src, dst, len, proto)
  {
    p := CopyInto(Zeros(40), 0, src);
    p := CopyInto(p, 16, dst);
    assert p == src + dst + Zeros(8);
    var wide := Be32Bytes(len);
    WideLength(len);
    p := CopyInto(p, 32, wide);
    assert p == src + dst + wide + Zeros(4);
    p := p[39 := proto];
  }

  /** Where each field of the two pseudo-headers lies. */
  lemma {:induction false} Ipv4PseudoBytes(src: u32, dst: u32, len: u16, proto: byte)
    ensures var p := Ipv4Pseudo(src, dst, len, proto);
            && Be32(p[0], p[1], p[2], p[3]) == src && Be32(p[4], p[5], p[6], p[7]) == dst
            && p[8] == 0 && p[9] == proto && Be16(p[10], p[11]) == len
  {
  }

  lemma {:induction false} Ipv6PseudoBytes(src: Addr6, dst: Addr6, len: u16, proto: byte)
    ensures var p := Ipv6Pseudo(src, dst, len, proto);
            && p[0..16] == src && p[16..32] == dst && p[32] == 0 && p[33] == 0 && Be16(p[34], p[35]) == len
            && p[36] == 0 && p[37] == 0 && p[38] == 0 && p[39] == proto
  {
  }

  /** Only the bytes of the checksum field are read as zero, each if it is there. */
  lemma {:induction false} ZeroFieldBytes(seg: seq<byte>, field: nat, i: nat)
    requires i < |seg|
    ensures ZeroField(seg, field)[i] == if field <= i < field + 2 then 0 else seg[i]
  {
  }

  lemma {:induction false} Ipv4PseudoSum(src: u32, dst: u32, len: u16, proto: byte)
    ensures WordSum(Ipv4Pseudo(src, dst, len, proto)) ==
            WordSum(Be32Bytes(src)) + WordSum(Be32Bytes(dst)) + proto + len
  {
    WordSumConcat(Be32Bytes(src) + Be32Bytes(dst) + [0, proto], Be16Bytes(len));
    WordSumConcat(Be32Bytes(src) + Be32Bytes(dst), [0, proto]);
    WordSumConcat(Be32Bytes(src), Be32Bytes(dst));
    WordSumPair(0, proto);
    WordSumPair(Be16Bytes(len)[0], Be16Bytes(len)[1]);
  }

  lemma {:induction false} Ipv6PseudoSum(src: Addr6, dst: Addr6, len: u16, proto: byte)
    ensures WordSum(Ipv6Pseudo(src, dst, len, proto)) == WordSum(src) + WordSum(dst) + len + proto
  {
    var tail := [0, 0] + Be16Bytes(len) + [0, 0, 0, proto];
    assert Ipv6Pseudo(src, dst, len, proto) == src + dst + tail;
    WordSumConcat(src + dst, tail);
    WordSumConcat(src, dst);
    WordSumConcat([0, 0] + Be16Bytes(len), [0, 0, 0, proto]);
    WordSumConcat([0, 0], Be16Bytes(len));
    assert [0, 0, 0, proto][2..] == [0, proto];
    WordSumPair(0, proto);
    WordSumPair(0, 0);
    WordSumPair(Be16Bytes(len)[0], Be16Bytes(len)[1]);
  }

  lemma {:induction false} WordSumPair(hi: byte, lo: byte)
    ensures WordSum([hi, lo]) == Be16(hi, lo)
  {
    assert [hi, lo][2..] == [];
  }

  lemma {:induction false} Words4Sum(b: seq<byte>)
    requires |b| == 4
    ensures WordSum(b) == Be16(b[0], b[1]) + Be16(b[2], b[3])
  {
    assert b[2..] == [b[2], b[3]];
    WordSumPair(b[2], b[3]);
  }

  // ---------- transport checksums ----------

  /** The loop shared by the four checksums: add the segment, checksum field as zero. */
  method AddSegment(start: u32, seg: seq<byte>, field: nat) returns (sum: u32)
    requires field % 2 == 0
    ensures sum == Wrap32(start + WordSum(ZeroField(seg, field)))
  {
    sum := start;
    var i := 0;
    ghost var z := ZeroField(seg, field);
    assert z[..0] == [];
    while i + 1 < |seg|
      invariant i % 2 == 0 && i <= |seg|
      invariant sum == Wrap32(start + WordSum(z[..i]))
    {
      var hi := if i == field then 0 else seg[i];
      var lo := if i + 1 == field + 1 then 0 else seg[i + 1];
      AccumulateNext(start, z, i);
      sum := WrappingAdd32(sum, Be16(hi, lo));
      i := i + 2;
    }
    if i < |seg| {
      var last := if i == field then 0 else seg[i];
      AccumulateLast(start, z, i);
      sum := WrappingAdd32(sum, Be16(last, 0));
    } else {
      assert z[..i] == z;
    }
  }

  /** The seeded partial folds of the two addresses. */
  method SeedAddresses(src: seq<byte>, dst: seq<byte>) returns (t: u16)
    requires |src| <= 16 && |dst| <= 16
    ensures t == Fold(WordSum(src) + WordSum(dst))
  {
    WordSumBound(src);
    WordSumBound(dst);
    var s := Checksum16WithSeed(src, 0);
    t := Checksum16WithSeed(dst, s);
    FoldHomomorphism(WordSum(src), WordSum(dst));
  }

  method FinishChecksum(start: u32, seg: seq<byte>, field: nat) returns (r: u16)
    requires field % 2 == 0
    ensures r != 0
    ensures start <= 0x4_0000 && |seg| <= 0xFFFF ==>
              r == NonZero(Complement(Fold(start + WordSum(ZeroField(seg, field)))))
  {
    var sum := AddSegment(start, seg, field);
    WordSumBound(ZeroField(seg, field));
    var folded := FoldSum(sum);
    r := NonZero(Complement(folded));
  }

  /** A start value made of a partial fold gives the same folded value as the flat sum. */
  lemma {:induction false} SeededEqualsFlat(addresses: nat, rest: nat, seg: seq<byte>, pseudo: seq<byte>)
    requires |pseudo| % 2 == 0 && WordSum(pseudo) == addresses + rest
    ensures Fold(Fold(addresses) + rest + WordSum(seg)) == FlatSum(pseudo + seg)
  {
    FoldHomomorphism(addresses, rest + WordSum(seg));
    WordSumConcat(pseudo, seg);
  }

  lemma {:induction false} FlatIpv4(src: u32, dst: u32, seg: seq<byte>, len: u16, proto: byte, field: nat)
    ensures var seed := Fold(WordSum(Be32Bytes(src)) + WordSum(Be32Bytes(dst)));
            NonZero(Complement(Fold(seed + (proto + len) + WordSum(ZeroField(seg, field)))))
            == TransportChecksum(Ipv4Pseudo(src, dst, len, proto), seg, field)
  {
    Ipv4PseudoSum(src, dst, len, proto);
    SeededEqualsFlat(WordSum(Be32Bytes(src)) + WordSum(Be32Bytes(dst)), proto + len,
                     ZeroField(seg, field), Ipv4Pseudo(src, dst, len, proto));
  }

  method ChecksumIpv4(src: u32, dst: u32, seg: seq<byte>, proto: byte, field: nat) returns (r: u16)
    requires field % 2 == 0
    ensures r != 0
    ensures |seg| <= 0xFFFF ==> r == TransportChecksum(Ipv4Pseudo(src, dst, |seg|, proto), seg, field)
  {
    var len := Wrap16(|seg|);
    var s, d := Be32Bytes(src), Be32Bytes(dst);
    var seed := SeedAddresses(s, d);
    var sum := WrappingAdd32(seed, proto);
    sum := WrappingAdd32(sum, len);
    r := FinishChecksum(sum, seg, field);
    if |seg| <= 0xFFFF {
      FlatIpv4(src, dst, seg, len, proto, field);
    }
  }

  lemma {:induction false} FlatIpv6(src: Addr6, dst: Addr6, seg: seq<byte>, len: u16, proto: byte, field: nat)
    ensures var seed := Fold(WordSum(src) + WordSum(dst));
            NonZero(Complement(Fold(seed + (len + proto) + WordSum(ZeroField(seg, field)))))
            == TransportChecksum(Ipv6Pseudo(src, dst, len, proto), seg, field)
  {
    Ipv6PseudoSum(src, dst, len, proto);
    SeededEqualsFlat(WordSum(src) + WordSum(dst), len + proto,
                     ZeroField(seg, field), Ipv6Pseudo(src, dst, len, proto));
  }

  method ChecksumIpv6(src: Addr6, dst: Addr6, seg: seq<byte>, proto: byte, field: nat) returns (r: u16)
    requires field % 2 == 0
    ensures r != 0
    ensures |seg| <= 0xFFFF ==> r == TransportChecksum(Ipv6Pseudo(src, dst, |seg|, proto), seg, field)
  {
    var len := Wrap32(|seg|);
    var seed := SeedAddresses(src, dst);
    var sum := WrappingAdd32(seed, len / 0x1_0000);
    sum := WrappingAdd32(sum, len % 0x1_0000);
    sum := WrappingAdd32(sum, proto);
    r := FinishChecksum(sum, seg, field);
    if |seg| <= 0xFFFF {
      FlatIpv6(src, dst, seg, len, proto, field);
    }
  }

  method TcpChecksumIpv4(src: u32, dst: u32, tcp: seq<byte>) returns (r: u16)
    ensures r != 0
    ensures |tcp| <= 0xFFFF ==> r == TransportChecksum(Ipv4Pseudo(src, dst, |tcp|, 6), tcp, 16)
  {
    r := ChecksumIpv4(src, dst, tcp, PROTO_TCP, TCP_FIELD);
  }

  method TcpChecksumIpv6(src: Addr6, dst: Addr6, tcp: seq<byte>) returns (r: u16)
    ensures r != 0
    ensures |tcp| <= 0xFFFF ==> r == TransportChecksum(Ipv6Pseudo(src, dst, |tcp|, 6), tcp, 16)
  {
    r := ChecksumIpv6(src, dst, tcp, PROTO_TCP, TCP_FIELD);
  }

  method UdpChecksumIpv4(src: u32, dst: u32, udp: seq<byte>) returns (r: u16)
    ensures r != 0
    ensures |udp| <= 0xFFFF ==> r == TransportChecksum(Ipv4Pseudo(src, dst, |udp|, 17), udp, 6)
  {
    r := ChecksumIpv4(src, dst, udp, PROTO_UDP, UDP_FIELD);
  }

  method UdpChecksumIpv6(src: Addr6, dst: Addr6, udp: seq<byte>) returns (r: u16)
    ensures r != 0
    ensures |udp| <= 0xFFFF ==> r == TransportChecksum(Ipv6Pseudo(src, dst, |udp|, 17), udp, 6)
  {
    r := ChecksumIpv6(src, dst, udp, PROTO_UDP, UDP_FIELD);
  }

  // ---------- what a stored checksum means ----------

  lemma {:induction false} ZeroFieldSum(seg: seq<byte>, field: nat)
    requires field % 2 == 0 && field + 2 <= |seg|
    ensures ZeroField(seg, field) == SetWord(seg, field, 0)
    ensures WordSum(seg) == WordSum(ZeroField(seg, field)) + Be16(seg[field], seg[field + 1])
  {
    WordSumSet(seg, field, 0);
  }

  /** A segment passes the receiver's check exactly when its field holds the computed
      checksum; the one other accepted value is 0 in place of 0xFFFF. */
  lemma {:induction false} VerifiesIff(pseudo: seq<byte>, seg: seq<byte>, field: nat)
    requires |pseudo| % 2 == 0 && WordSum(pseudo) > 0
    requires field % 2 == 0 && field + 2 <= |seg|
    ensures var stored := Be16(seg[field], seg[field + 1]);
            var c := TransportChecksum(pseudo, seg, field);
            Verifies(pseudo, seg) <==> stored == c || (stored == 0 && c == 0xFFFF)
  {
    SumOfStored(pseudo, seg, field);
    StoredCloses(WordSum(pseudo + ZeroField(seg, field)), Be16(seg[field], seg[field + 1]));
  }

  lemma {:induction false} SumOfStored(pseudo: seq<byte>, seg: seq<byte>, field: nat)
    requires |pseudo| % 2 == 0 && WordSum(pseudo) > 0
    requires field % 2 == 0 && field + 2 <= |seg|
    ensures var base := WordSum(pseudo + ZeroField(seg, field));
            base > 0 && WordSum(pseudo + seg) == base + Be16(seg[field], seg[field + 1])
  {
    ZeroFieldSum(seg, field);
    WordSumConcat(pseudo, seg);
    WordSumConcat(pseudo, ZeroField(seg, field));
  }

  lemma {:induction false} StoredCloses(base: nat, stored: u16)
    requires base > 0
    ensures var c := NonZero(Complement(Fold(base)));
            Fold(base + stored) == 0xFFFF <==> stored == c || (stored == 0 && c == 0xFFFF)
  {
    FoldHomomorphism(base, stored);
    FoldResidue(base);
    var both: int := Fold(base) + stored;
    assert Fold(both) == if both <= 0xFFFF then both else both - 0xFFFF;
  }

  /** Insert then verify: whatever the field held before, storing the checksum makes the
      pseudo-header and segment sum to 0xFFFF, and the stored value is never 0. */
  lemma {:induction false} InsertThenVerify(pseudo: seq<byte>, seg: seq<byte>, field: nat)
    requires |pseudo| % 2 == 0 && WordSum(pseudo) > 0
    requires field % 2 == 0 && field + 2 <= |seg|
    ensures var c := TransportChecksum(pseudo, seg, field);
            c != 0 && Verifies(pseudo, SetWord(seg, field, c))
  {
    var c := TransportChecksum(pseudo, seg, field);
    var stored := SetWord(seg, field, c);
    assert ZeroField(stored, field) == ZeroField(seg, field);
    VerifiesIff(pseudo, stored, field);
  }

  /** A byte string with a nonzero byte has a nonzero sum, as the lemmas above ask: both
      pseudo-headers carry the protocol, at offsets 9 and 39. */
  lemma {:induction false} NonZeroByte(p: seq<byte>, i: nat)
    requires i < |p| && p[i] != 0
    ensures WordSum(p) > 0
  {
    if i >= 2 {
      NonZeroByte(p[2..], i - 2);
    }
  }
}
