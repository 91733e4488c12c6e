/** The incremental checksum update (section 3 of RFC 1624, equation 3) against a
    full recomputation, for the address change from IPv6 to IPv4 and the port rewrite. */
module Incremental {
  import opened Words
  import opened OnesComplement
  import opened Checksum

  /** The sum of the complemented words of a byte string. */
  function InvertedSum(d: seq<byte>): nat {
    WordSumBound(d);
    0xFFFF * ((|d| + 1) / 2) - WordSum(d)
  }

  lemma OneMoreWord(i: nat)
    requires i % 2 == 0
    ensures (i + 2 + 1) / 2 == (i + 1) / 2 + 1
  {
  }

  lemma {:induction false} InvertedNext(start: nat, d: seq<byte>, i: nat)
    requires i % 2 == 0 && i + 2 <= |d|
    ensures WrappingAdd32(Wrap32(start + InvertedSum(d[..i])), Complement(Be16(d[i], d[i + 1])))
            == Wrap32(start + InvertedSum(d[..i + 2]))
  {
    WordSumNext(d, i);
    OneMoreWord(i);
    assert InvertedSum(d[..i + 2]) == InvertedSum(d[..i]) + Complement(Be16(d[i], d[i + 1]));
    WrapAdd(start + InvertedSum(d[..i]), Complement(Be16(d[i], d[i + 1])));
  }

  lemma {:induction false} InvertedLast(start: nat, d: seq<byte>, i: nat)
    requires i % 2 == 0 && i + 1 == |d|
    ensures WrappingAdd32(Wrap32(start + InvertedSum(d[..i])), Complement(Be16(d[i], 0)))
            == Wrap32(start + InvertedSum(d))
  {
    WordSumLast(d, i);
    assert (i + 1 + 1) / 2 == (i + 1) / 2 + 1;
    assert InvertedSum(d) == InvertedSum(d[..i]) + Complement(Be16(d[i], 0));
    WrapAdd(start + InvertedSum(d[..i]), Complement(Be16(d[i], 0)));
  }

  method RemoveWords(start: u32, removed: seq<byte>) returns (sum: u32)
    ensures sum == Wrap32(start + InvertedSum(removed))
  {
    sum := start;
    var i := 0;
    assert removed[..0] == [];
    while i + 1 < |removed|
      invariant i % 2 == 0 && i <= |removed|
      invariant sum == Wrap32(start + InvertedSum(removed[..i]))
    {
      InvertedNext(start, removed, i);
      sum := WrappingAdd32(sum, Complement(Be16(removed[i], removed[i + 1])));
      i := i + 2;
    }
    if i < |removed| {
      InvertedLast(start, removed, i);
      sum := WrappingAdd32(sum, Complement(Be16(removed[i], 0)));
    } else {
      assert removed[..i] == removed;
    }
  }

  method AddWords(start: u32, added: seq<byte>) returns (sum: u32)
    ensures sum == Wrap32(start + WordSum(added))
  {
    sum := start;
    var i := 0;
    assert added[..0] == [];
    while i + 1 < |added|
      invariant i % 2 == 0 && i <= |added|
      invariant sum == Wrap32(start + WordSum(added[..i]))
    {
      AccumulateNext(start, added, i);
      sum := WrappingAdd32(sum, Be16(added[i], added[i + 1]));
      i := i + 2;
    }
    if i < |added| {
      AccumulateLast(start, added, i);
      sum := WrappingAdd32(sum, Be16(added[i], 0));
    } else {
      assert added[..i] == added;
    }
  }

  method AddRemoveWords(start: u32, removed: seq<byte>, added: seq<byte>) returns (sum: u32)
    ensures sum == Wrap32(start + InvertedSum(removed) + WordSum(added))
  {
    WrapTwice(start, InvertedSum(removed), WordSum(added));
    sum := RemoveWords(start, removed);
    sum := AddWords(sum, added);
  }

  /** The value a checksum field takes for a given sum; 0 is never stored. */
  function CheckOf(sum: nat): u16 {
    NonZero(Complement(Fold(sum)))
  }

  function IncrementalSum(check: u16, oldPseudo: seq<byte>, newPseudo: seq<byte>, oldPort: u16, newPort: u16): nat {
    Complement(check) + InvertedSum(oldPseudo) + WordSum(newPseudo) + Complement(oldPort) + newPort
  }

  /** The 32-bit accumulator is exact for both pseudo-headers of 40 and 12 bytes. */
  method Nat64IncrementalTcpChecksumV6ToV4(check: u16, oldPseudo: seq<byte>, newPseudo: seq<byte>,
                                           oldPort: u16, newPort: u16)
    returns (r: u16)
    ensures r == CheckOf(Wrap32(IncrementalSum(check, oldPseudo, newPseudo, oldPort, newPort)))
    ensures |oldPseudo| <= 40 && |newPseudo| <= 40 ==>
              r == CheckOf(IncrementalSum(check, oldPseudo, newPseudo, oldPort, newPort))
  {
    WordSumBound(oldPseudo);
    WordSumBound(newPseudo);
    ghost var swapped: nat := InvertedSum(oldPseudo) + WordSum(newPseudo);
    WrapTwice(Complement(check), swapped, Complement(oldPort));
    WrapTwice(Complement(check), swapped + Complement(oldPort), newPort);
    var sum := AddRemoveWords(Complement(check), oldPseudo, newPseudo);
    sum := WrappingAdd32(sum, Complement(oldPort));
    sum := WrappingAdd32(sum, newPort);
    var folded := FoldSum(sum);
    r := NonZero(Complement(folded));
  }

  /** A stored checksum depends on the residue of the sum only: the two zeros agree. */
  lemma {:induction false} CheckOfResidue(x: nat, y: nat)
    ensures CheckOf(x) == CheckOf(y) <==> Congruent(x, y)
  {
    FoldResidue(x);
    FoldResidue(y);
    var f: int, g: int := Fold(x), Fold(y);
    if Congruent(x, y) {
      CongruentTrans(f, x, y);
      CongruentSymmetric(g, y);
      CongruentTrans(f, y, g);
      var q := Quotient(f, g);
      assert f == g || f - g == 0xFFFF || g - f == 0xFFFF;
    }
    if CheckOf(x) == CheckOf(y) {
      var k := if f == g then 0 else if f == 0xFFFF then 1 else -1;
      CongruentBy(f, g, k);
      CongruentSymmetric(f, x);
      CongruentTrans(x, f, g);
      CongruentTrans(x, g, y);
    }
  }

  lemma {:induction false} CheckOfComplement(check: u16, sum: nat)
    ensures Congruent(Complement(check), sum) <==> check == CheckOf(sum) || (check == 0 && CheckOf(sum) == 0xFFFF)
  {
    CheckOfResidue(Complement(check), sum);
  }

  lemma {:induction false} RewrittenZeroField(seg: seq<byte>, field: nat, newPort: u16)
    requires 2 <= field && field % 2 == 0 && field + 2 <= |seg|
    ensures WordSum(ZeroField(SetWord(seg, 0, newPort), field)) ==
            WordSum(ZeroField(seg, field)) - Be16(seg[0], seg[1]) + newPort
  {
    var z := ZeroField(seg, field);
    assert ZeroField(SetWord(seg, 0, newPort), field) == SetWord(z, 0, newPort);
    WordSumSet(z, 0, newPort);
  }

  lemma {:induction false} ShiftCongruent(a: int, b: int, c: int, d: int, k: int)
    requires a - b == c - d + 0xFFFF * k
    ensures Congruent(a, b) <==> Congruent(c, d)
  {
    if Congruent(c, d) {
      var q := Quotient(c, d);
      CongruentBy(a, b, q + k);
    }
    if Congruent(a, b) {
      var q := Quotient(a, b);
      CongruentBy(c, d, q - k);
    }
  }

  /** The change the update makes to the sum is the change of the material. */
  lemma {:induction false} IncrementalSumTracks(check: u16, oldPseudo: seq<byte>, newPseudo: seq<byte>,
                                                seg: seq<byte>, field: nat, newPort: u16)
    requires |oldPseudo| % 2 == 0 && |newPseudo| % 2 == 0
    requires 2 <= field && field % 2 == 0 && field + 2 <= |seg|
    ensures var updated := IncrementalSum(check, oldPseudo, newPseudo, Be16(seg[0], seg[1]), newPort);
            Congruent(updated, WordSum(newPseudo + ZeroField(SetWord(seg, 0, newPort), field)))
            <==> Congruent(Complement(check), WordSum(oldPseudo + ZeroField(seg, field)))
  {
    var z := ZeroField(seg, field);
    RewrittenZeroField(seg, field, newPort);
    WordSumConcat(oldPseudo, z);
    WordSumConcat(newPseudo, ZeroField(SetWord(seg, 0, newPort), field));
    var before: int := WordSum(oldPseudo + z);
    var after: int := WordSum(newPseudo + ZeroField(SetWord(seg, 0, newPort), field));
    var updated: int := IncrementalSum(check, oldPseudo, newPseudo, Be16(seg[0], seg[1]), newPort);
    ShiftCongruent(updated, after, Complement(check), before, (|oldPseudo| + 1) / 2 + 1);
  }

  /** Updating a checksum incrementally gives exactly the full recomputation over the
      translated segment when the checksum was right, and never when it was wrong. */
  lemma {:induction false} IncrementalMatchesFull(src6: Addr6, dst6: Addr6, src4: u32, dst4: u32, seg: seq<byte>,
                                                  proto: byte,
                                                  field: nat, check: u16, newPort: u16)
    requires 2 <= field && field % 2 == 0 && field + 2 <= |seg| <= 0xFFFF
    ensures var oldPseudo := Ipv6Pseudo(src6, dst6, |seg|, proto);
            var newPseudo := Ipv4Pseudo(src4, dst4, |seg|, proto);
            var right := TransportChecksum(oldPseudo, seg, field);
            CheckOf(IncrementalSum(check, oldPseudo, newPseudo, Be16(seg[0], seg[1]), newPort))
              == TransportChecksum(newPseudo, SetWord(seg, 0, newPort), field)
            <==> check == right || (check == 0 && right == 0xFFFF)
  {
    var oldPseudo := Ipv6Pseudo(src6, dst6, |seg|, proto);
    var newPseudo := Ipv4Pseudo(src4, dst4, |seg|, proto);
    IncrementalSumTracks(check, oldPseudo, newPseudo, seg, field, newPort);
    CheckOfResidue(IncrementalSum(check, oldPseudo, newPseudo, Be16(seg[0], seg[1]), newPort),
                   WordSum(newPseudo + ZeroField(SetWord(seg, 0, newPort), field)));
    CheckOfComplement(check, WordSum(oldPseudo + ZeroField(seg, field)));
  }
}
