/** The packet a classifier sees: bounded reads and writes, the IPv6 base-header parser,
    and the kernel's checksum helpers. The helpers are not modelled but assumed, each by
    the contract of one method: a one's-complement update on native words (RFC 1624). */
module Packets {
  import opened Words
  import opened OnesComplement
  import opened Checksum

  const ETH_HDR_LEN: nat := 14
  const ETH_P_IP: u16 := 0x0800
  const ETH_P_IPV6: u16 := 0x86DD

  // ---------- bounded reads ----------

  function Load8(d: seq<byte>, off: nat): Option<byte> {
    if off < |d| then Some(d[off]) else None
  }

  function Load16(d: seq<byte>, off: nat): Option<u16> {
    if off + 2 <= |d| then Some(Be16(d[off], d[off + 1])) else None
  }

  function Load32(d: seq<byte>, off: nat): Option<u32> {
    if off + 4 <= |d| then Some(Be32(d[off], d[off + 1], d[off + 2], d[off + 3])) else None
  }

  // ---------- the IPv6 base header ----------

  const IPV6_BASE_HDR_LEN: nat := 40

  datatype Ipv6Info = Ipv6Info(src: Addr6, dst: Addr6, nextHeader: byte, payloadLen: u16, l4Offset: nat)

  predicate IsExtensionHeader(nextHeader: byte) {
    nextHeader in {0, 43, 44, 60, 50, 51}
  }

  function Ipv6FromBeWords(w0: u32, w1: u32, w2: u32, w3: u32): Addr6 {
    Be32Bytes(w0) + Be32Bytes(w1) + Be32Bytes(w2) + Be32Bytes(w3)
  }

  function LoadAddr6(d: seq<byte>, off: nat): Option<Addr6> {
    var w0, w1, w2, w3 := Load32(d, off), Load32(d, off + 4), Load32(d, off + 8), Load32(d, off + 12);
    if w0.Some? && w1.Some? && w2.Some? && w3.Some? then
      Some(Ipv6FromBeWords(w0.value, w1.value, w2.value, w3.value))
    else None
  }

  /** None stands for the parser's only error, a truncated header. */
  function ParseIpv6Base(d: seq<byte>, off: nat): Option<Ipv6Info> {
    var payloadLen, nextHeader := Load16(d, off + 4), Load8(d, off + 6);
    var src, dst := LoadAddr6(d, off + 8), LoadAddr6(d, off + 24);
    if payloadLen.Some? && nextHeader.Some? && src.Some? && dst.Some? then
      Some(Ipv6Info(src.value, dst.value, nextHeader.value, payloadLen.value, off + IPV6_BASE_HDR_LEN))
    else None
  }

  /** Reading an address as four big-endian words gives back its sixteen bytes. */
  lemma LoadAddr6IsSlice(d: seq<byte>, off: nat)
    ensures LoadAddr6(d, off) == if off + 16 <= |d| then Some(d[off..off + 16]) else None
  {
    if off + 16 <= |d| {
      WordIsSlice(d, off);
      WordIsSlice(d, off + 4);
      WordIsSlice(d, off + 8);
      WordIsSlice(d, off + 12);
      assert d[off..off + 16] == d[off..off + 4] + d[off + 4..off + 8] + d[off + 8..off + 12] + d[off + 12..off + 16];
    }
  }

  lemma WordIsSlice(d: seq<byte>, off: nat)
    requires off + 4 <= |d|
    ensures Be32Bytes(Be32(d[off], d[off + 1], d[off + 2], d[off + 3])) == d[off..off + 4]
  {
    Be32BytesInverse(d[off], d[off + 1], d[off + 2], d[off + 3]);
  }

  /** The parser succeeds exactly on a complete base header and returns its fields. */
  lemma ParseReadsFields(d: seq<byte>, off: nat)
    ensures ParseIpv6Base(d, off).Some? <==> off + 40 <= |d|
    ensures off + 40 <= |d| ==>
              ParseIpv6Base(d, off).value ==
              Ipv6Info(d[off + 8..off + 24], d[off + 24..off + 40], d[off + 6], Be16(d[off + 4], d[off + 5]), off + 40)
  {
    LoadAddr6IsSlice(d, off + 8);
    LoadAddr6IsSlice(d, off + 24);
  }

  // ---------- the packet ----------

  datatype CsumFault = NoFault | DiffFails | PseudoFails | PortFails | MangleFails

  /** The checksum field, or any aligned word, as a big-endian number. */
  function WordAt(d: seq<byte>, off: nat): u16
    requires off + 2 <= |d|
  {
    Be16(d[off], d[off + 1])
  }

  /** Equation 3 of RFC 1624: ~field = ~before - from + to. It fixes the residue and leaves
      0xFFFF, the other zero, only where it was. With the mangled-zero mark a zero field is
      left alone and no other field becomes zero. */
  ghost predicate Updated(field: u16, before: u16, from: nat, to: nat, mark: bool) {
    if mark && before == 0 then field == 0
    else Tracks(field, before, from, to, mark)
  }

  ghost predicate Tracks(field: u16, before: u16, from: nat, to: nat, mark: bool) {
    && Congruent(field + to, before + from)
    && (if mark then field != 0 else field == 0xFFFF ==> before == 0xFFFF)
  }

  method AnyUpdated(before: u16, from: nat, to: nat, mark: bool) returns (field: u16)
    ensures Updated(field, before, from, to, mark)
  {
    var residue := (before + from - to) % 0xFFFF;
    ResidueUpdates(residue, before, from, to);
    field := if mark && before == 0 then 0 else if mark && residue == 0 then 0xFFFF else residue;
  }

  lemma ResidueUpdates(residue: int, before: int, from: int, to: int)
    requires residue == (before + from - to) % 0xFFFF
    ensures Congruent(residue + to, before + from)
    ensures Congruent(residue + 0xFFFF + to, before + from)
  {
    var q := (before + from - to) / 0xFFFF;
    CongruentBy(residue + to, before + from, -q);
    CongruentBy(residue + 0xFFFF + to, before + from, 1 - q);
  }

  /** Store a native word. */
  function PutNative(d: seq<byte>, off: nat, field: u16, little: bool): (r: seq<byte>)
    requires off + 2 <= |d|
    ensures OnlyWord(d, r, off) && Native16(r[off], r[off + 1], little) == field
  {
    var b := Be16Bytes(field);
    if little then d[off := b[1]][off + 1 := b[0]] else d[off := b[0]][off + 1 := b[1]]
  }

  /** Only the two bytes at `off` may differ. */
  predicate OnlyWord(before: seq<byte>, after: seq<byte>, off: nat) {
    && |after| == |before|
    && forall i :: 0 <= i < |before| && i != off && i != off + 1 ==> after[i] == before[i]
  }

  class Skb {
    var data: seq<byte>
    const little: bool

    constructor (data: seq<byte>, little: bool)
      ensures this.data == data && this.little == little
    {
      this.data := data;
      this.little := little;
    }

    method Store(off: nat, bytes: seq<byte>) returns (ok: bool)
      modifies this
      ensures ok <==> off + |bytes| <= |old(data)|
      ensures data == if ok then CopyInto(old(data), off, bytes) else old(data)
    {
      ok := off + |bytes| <= |data|;
      if ok {
        data := CopyInto(data, off, bytes);
      }
    }

    /** Protocol change IPv6 to IPv4: twenty bytes after the Ethernet header disappear. */
    method ChangeProtoToIpv4(fails: bool) returns (ok: bool)
      requires |data| >= ETH_HDR_LEN + 20
      modifies this
      ensures ok == !fails
      ensures data == if ok then old(data)[..14] + old(data)[34..] else old(data)
    {
      ok := !fails;
      if ok {
        data := data[..14] + data[34..];
      }
    }

    /** Protocol change IPv4 to IPv6: twenty bytes of unknown content appear there. */
    method ChangeProtoToIpv6(fails: bool, filler: seq<byte>) returns (ok: bool)
      requires |data| >= ETH_HDR_LEN && |filler| == 20
      modifies this
      ensures ok == !fails
      ensures data == if ok then old(data)[..14] + filler + old(data)[14..] else old(data)
    {
      ok := !fails;
      if ok {
        data := data[..14] + filler + data[14..];
      }
    }

    /** Assumption on `l4_csum_replace`: in native words, the field is updated by equation 3
        of RFC 1624, with or without the mangled-zero mark; nothing else changes. */
    method L4CsumReplace(off: nat, from: nat, to: nat, mark: bool, fails: bool) returns (ok: bool)
      modifies this
      ensures ok <==> !fails && off + 2 <= |old(data)|
      ensures OnlyWord(old(data), data, off)
      ensures !ok ==> data == old(data)
      ensures ok ==> Updated(Native16(data[off], data[off + 1], little),
                             Native16(old(data)[off], old(data)[off + 1], little), from, to, mark)
    {
      ok := !fails && off + 2 <= |data|;
      if ok {
        var before := Native16(data[off], data[off + 1], little);
        var field := AnyUpdated(before, from, to, mark);
        data := PutNative(data, off, field, little);
      }
    }

    /** The port half of the update: ports are handed over as native words in wire order. */
    method ReplacePort(off: nat, oldPort: u16, newPort: u16, mark: bool, fails: bool) returns (ok: bool)
      modifies this
      ensures ok <==> !fails && off + 2 <= |old(data)|
      ensures OnlyWord(old(data), data, off)
      ensures !ok ==> data == old(data)
      ensures ok ==> Updated(WordAt(data, off), WordAt(old(data), off), oldPort, newPort, mark)
    {
      ghost var before := data;
      var from, to := ToBe16(oldPort, little), ToBe16(newPort, little);
      ToBeScaled(oldPort, little);
      ToBeScaled(newPort, little);
      ok := L4CsumReplace(off, from, to, mark, fails);
      if ok {
        LiftUpdate(before, data, off, from, to, oldPort, newPort, mark, little);
      }
    }

    /** The pseudo-header half: the difference of the two pseudo-headers is added. */
    method ReplacePseudo(off: nat, diff: u32, ghost oldPseudo: seq<byte>, ghost newPseudo: seq<byte>, fails: bool)
      returns (ok: bool)
      requires Congruent(diff, NativeSum(newPseudo, little) - NativeSum(oldPseudo, little))
      modifies this
      ensures ok <==> !fails && off + 2 <= |old(data)|
      ensures OnlyWord(old(data), data, off)
      ensures !ok ==> data == old(data)
      ensures ok ==> Updated(WordAt(data, off), WordAt(old(data), off), WordSum(oldPseudo), WordSum(newPseudo), false)
    {
      ghost var before := data;
      ok := L4CsumReplace(off, 0, diff, false, fails);
      if ok {
        ghost var added, removed := NativeSum(newPseudo, little), NativeSum(oldPseudo, little);
        ByteOrder(oldPseudo, little);
        ByteOrder(newPseudo, little);
        ShiftBoth(Native16(data[off], data[off + 1], little), Native16(before[off], before[off + 1], little),
                  diff, removed, added);
        LiftUpdate(before, data, off, removed, added, WordSum(oldPseudo), WordSum(newPseudo), false, little);
      }
    }
  }

  /** Assumption on `bpf_csum_diff`: a representative of the difference of the native sums. */
  method CsumDiff(removed: seq<byte>, added: seq<byte>, little: bool, fails: bool) returns (r: Option<u32>)
    ensures r.None? <==> fails
    ensures r.Some? ==> Congruent(r.value, NativeSum(added, little) - NativeSum(removed, little))
  {
    if fails {
      return None;
    }
    var diff: int := NativeSum(added, little) - NativeSum(removed, little);
    CongruentBy(diff % 0xFFFF, diff, -(diff / 0xFFFF));
    return Some(diff % 0xFFFF);
  }

  lemma ShiftBoth(after: int, before: int, diff: int, removed: int, added: int)
    requires Congruent(after + diff, before) && Congruent(diff, added - removed)
    ensures Congruent(after + added, before + removed)
  {
    var p := Quotient(after + diff, before);
    var q := Quotient(diff, added - removed);
    CongruentBy(after + added, before + removed, p - q);
  }

  /** A congruence between native words is one between the big-endian numbers, because the
      byte order contributes a common factor that can be cancelled (section 2 of RFC 1071). */
  lemma LiftResidue(before: seq<byte>, after: seq<byte>, off: nat, nativeFrom: nat, nativeTo: nat, from: nat, to: nat,
                    little: bool)
    requires off + 2 <= |before| && off + 2 <= |after|
    requires Congruent(Native16(after[off], after[off + 1], little) + nativeTo,
                       Native16(before[off], before[off + 1], little) + nativeFrom)
    requires Congruent(nativeFrom, Scale(little) * from) && Congruent(nativeTo, Scale(little) * to)
    ensures Congruent(WordAt(after, off) + to, WordAt(before, off) + from)
  {
    ByteOrderWord(after[off], after[off + 1], little);
    ByteOrderWord(before[off], before[off + 1], little);
    CombineScaled(Native16(after[off], after[off + 1], little), WordAt(after, off),
                  Native16(before[off], before[off + 1], little), WordAt(before, off),
                  nativeFrom, from, nativeTo, to, Scale(little));
    ScaleCancels(WordAt(after, off) + to, WordAt(before, off) + from, little);
  }

  /** The two zeros look the same in either byte order. */
  lemma NativeZeros(hi: byte, lo: byte, little: bool)
    ensures Native16(hi, lo, little) == 0 <==> Be16(hi, lo) == 0
    ensures Native16(hi, lo, little) == 0xFFFF <==> Be16(hi, lo) == 0xFFFF
  {
  }

  /** An update of native words is one of the big-endian numbers. */
  lemma LiftUpdate(before: seq<byte>, after: seq<byte>, off: nat, nativeFrom: nat, nativeTo: nat, from: nat, to: nat,
                   mark: bool, little: bool)
    requires off + 2 <= |before| && off + 2 <= |after|
    requires Updated(Native16(after[off], after[off + 1], little), Native16(before[off], before[off + 1], little),
                     nativeFrom, nativeTo, mark)
    requires Congruent(nativeFrom, Scale(little) * from) && Congruent(nativeTo, Scale(little) * to)
    ensures Updated(WordAt(after, off), WordAt(before, off), from, to, mark)
  {
    NativeZeros(after[off], after[off + 1], little);
    NativeZeros(before[off], before[off + 1], little);
    if !(mark && WordAt(before, off) == 0) {
      LiftResidue(before, after, off, nativeFrom, nativeTo, from, to, little);
    }
  }

  lemma CombineScaled(na: int, a: int, nb: int, b: int, nf: int, f: int, nt: int, t: int, s: int)
    requires Congruent(na, s * a) && Congruent(nb, s * b) && Congruent(nf, s * f) && Congruent(nt, s * t)
    requires Congruent(na + nt, nb + nf)
    ensures Congruent(s * (a + t), s * (b + f))
  {
    Distribute(s, a, t);
    Distribute(s, b, f);
    CongruentSum(na, s * a, nt, s * t);
    CongruentSum(nb, s * b, nf, s * f);
    CongruentSymmetric(na + nt, s * a + s * t);
    CongruentTrans(s * a + s * t, na + nt, nb + nf);
    CongruentTrans(s * a + s * t, nb + nf, s * b + s * f);
  }
}
