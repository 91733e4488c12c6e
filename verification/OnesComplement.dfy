/** One's-complement arithmetic on 16-bit words: the two folds of the program,
    what they compute, and the sum of a byte string taken as big-endian words. */
module OnesComplement {
  import opened Words

  /** The folded value of an unbounded sum. Zero is kept apart from the other
      multiples of 65535: it is the only sum that folds to 0. */
  function Fold(x: nat): u16 {
    if x <= 0xFFFF then x else Fold(x - 0xFFFF)
  }

  predicate Apart(q: int, a: int, b: int) {
    a - b == 0xFFFF * q
  }

  /** Congruence modulo 65535, by the quotient, so that no proof below rests on division. */
  ghost predicate Congruent(a: int, b: int) {
    exists q: int :: Apart(q, a, b)
  }

  lemma CongruentBy(a: int, b: int, q: int)
    requires a - b == 0xFFFF * q
    ensures Congruent(a, b)
  {
    assert Apart(q, a, b);
  }

  lemma Quotient(a: int, b: int) returns (q: int)
    requires Congruent(a, b)
    ensures a - b == 0xFFFF * q
  {
    q :| Apart(q, a, b);
  }

  lemma CongruentIsRemainder(a: int, b: int)
    ensures Congruent(a, b) <==> (a - b) % 0xFFFF == 0
  {
    if Congruent(a, b) {
      var q := Quotient(a, b);
    }
    if (a - b) % 0xFFFF == 0 {
      CongruentBy(a, b, (a - b) / 0xFFFF);
    }
  }

  lemma CongruentSum(a: int, b: int, c: int, d: int)
    requires Congruent(a, b) && Congruent(c, d)
    ensures Congruent(a + c, b + d)
  {
    var p := Quotient(a, b);
    var q := Quotient(c, d);
    CongruentBy(a + c, b + d, p + q);
  }

  lemma CongruentTrans(a: int, b: int, c: int)
    requires Congruent(a, b) && Congruent(b, c)
    ensures Congruent(a, c)
  {
    var p := Quotient(a, b);
    var q := Quotient(b, c);
    CongruentBy(a, c, p + q);
  }

  lemma CongruentSymmetric(a: int, b: int)
    requires Congruent(a, b)
    ensures Congruent(b, a)
  {
    var q := Quotient(a, b);
    CongruentBy(b, a, -q);
  }

  function Complement(w: u16): u16 {
    0xFFFF - w
  }

  /** Fold(x) is the representative of x modulo 65535 in 1..65535, and 0 only for 0. */
  lemma {:induction false} FoldResidue(x: nat)
    ensures Congruent(Fold(x), x) && (Fold(x) == 0 <==> x == 0)
  {
    if x > 0xFFFF {
      FoldResidue(x - 0xFFFF);
      var f: int, y: int := Fold(x), x;
      var q := Quotient(f, y - 0xFFFF);
      CongruentBy(f, y, q - 1);
    } else {
      CongruentBy(x, x, 0);
    }
  }

  lemma FoldUnique(x: nat, r: u16)
    ensures r == Fold(x) <==> Congruent(r, x) && (r == 0 <==> x == 0)
  {
    FoldResidue(x);
    if Congruent(r, x) && (r == 0 <==> x == 0) {
      var q := Quotient(r, x);
      var p := Quotient(Fold(x), x);
      assert Fold(x) - r == 0xFFFF * (p - q);
    }
  }

  lemma FoldCongruent(x: nat, y: nat)
    ensures Fold(x) == Fold(y) <==> Congruent(x, y) && (x == 0 <==> y == 0)
  {
    FoldResidue(x);
    FoldUnique(y, Fold(x));
    if Congruent(Fold(x), y) {
      CongruentSymmetric(Fold(x), x);
      CongruentTrans(x, Fold(x), y);
    }
    if Congruent(x, y) {
      CongruentTrans(Fold(x), x, y);
    }
  }

  lemma FoldAllOnes(x: nat)
    requires x > 0
    ensures Fold(x) == 0xFFFF <==> Congruent(x, 0)
  {
    FoldUnique(x, 0xFFFF);
    if Congruent(0xFFFF, x) {
      var q := Quotient(0xFFFF, x);
      CongruentBy(x, 0, 1 - q);
    }
    if Congruent(x, 0) {
      var q := Quotient(x, 0);
      CongruentBy(0xFFFF, x, 1 - q);
    }
  }

  /** A partial fold may be taken anywhere inside a longer sum. */
  lemma FoldHomomorphism(a: nat, b: nat)
    ensures Fold(Fold(a) + b) == Fold(a + b)
  {
    FoldResidue(a);
    var q := Quotient(Fold(a), a);
    CongruentBy(Fold(a) + b, a + b, q);
    FoldCongruent(Fold(a) + b, a + b);
  }

  /** Adding the complement of the folded sum closes the sum: it folds to 0xFFFF. */
  lemma ComplementCloses(sum: nat)
    ensures Fold(sum + Complement(Fold(sum))) == 0xFFFF
  {
    FoldHomomorphism(sum, Complement(Fold(sum)));
  }

  /** One end-around carry keeps the folded value. */
  lemma CarryKeepsFold(x: nat)
    ensures Fold(x % 0x1_0000 + x / 0x1_0000) == Fold(x)
  {
    var q, r := x / 0x1_0000, x % 0x1_0000;
    assert x == q * 0x1_0000 + r;
    var sum: int := r + q;
    CongruentBy(sum, x, -q);
    FoldCongruent(r + q, x);
  }

  /** The while-loop fold (`sum & 0xffff` is the remainder, `sum >> 16` the quotient). */
  method FoldSum(sum: u32) returns (r: u16)
    ensures r == Fold(sum)
  {
    var s := sum;
    while s / 0x1_0000 != 0
      invariant Fold(s) == Fold(sum)
      decreases s
    {
      CarryKeepsFold(s);
      s := s % 0x1_0000 + s / 0x1_0000;
    }
    r := s;
  }

  /** The straight-line fold of the dataplane: three carries settle every u32. */
  method FoldU32Fixed(sum: u32) returns (r: u16)
    ensures r == Fold(sum)
  {
    CarryKeepsFold(sum);
    var s := sum % 0x1_0000 + sum / 0x1_0000;
    CarryKeepsFold(s);
    s := s % 0x1_0000 + s / 0x1_0000;
    CarryKeepsFold(s);
    s := s % 0x1_0000 + s / 0x1_0000;
    r := s;
  }

  lemma LostCarries(q: nat, r: nat)
    ensures Congruent(r, q * 0x1_0000_0000 + r) <==> q % 0xFFFF == 0
  {
    var k: int, s: int := q, r;
    CongruentIsRemainder(k, 0);
    if Congruent(s, k * 0x1_0000_0000 + s) {
      var p := Quotient(s, k * 0x1_0000_0000 + s);
      CongruentBy(k, 0, -p - k * 0x1_0001);
    }
    if Congruent(k, 0) {
      var p := Quotient(k, 0);
      CongruentBy(s, k * 0x1_0000_0000 + s, -p * 0x1_0000_0000);
    }
  }

  /** Where a wrapping 32-bit accumulator still folds to the right value. */
  lemma WrapKeepsFoldIff(x: nat)
    ensures Fold(Wrap32(x)) == Fold(x) <==>
            x / 0x1_0000_0000 % 0xFFFF == 0 && (Wrap32(x) == 0 ==> x == 0)
  {
    Wrap32IsRemainder(x);
    LostCarries(x / 0x1_0000_0000, x % 0x1_0000_0000);
    FoldCongruent(Wrap32(x), x);
  }

  // ---------- sums of byte strings ----------

  /** The unbounded sum of big-endian words; an odd last byte is the high half of its word. */
  function WordSum(d: seq<byte>): nat {
    if |d| == 0 then 0
    else if |d| == 1 then Be16(d[0], 0)
    else Be16(d[0], d[1]) + WordSum(d[2..])
  }

  lemma {:induction false} WordSumConcat(a: seq<byte>, b: seq<byte>)
    requires |a| % 2 == 0
    ensures WordSum(a + b) == WordSum(a) + WordSum(b)
  {
    if |a| == 0 {
      assert a + b == b;
    } else {
      assert (a + b)[2..] == a[2..] + b;
      WordSumConcat(a[2..], b);
    }
  }

  lemma {:induction false} WordSumBound(d: seq<byte>)
    ensures WordSum(d) <= 0xFFFF * ((|d| + 1) / 2)
  {
    if |d| > 1 {
      WordSumBound(d[2..]);
    }
  }

  /** The sum grows word by word along a prefix. */
  lemma WordSumNext(d: seq<byte>, i: nat)
    requires i % 2 == 0 && i + 2 <= |d|
    ensures WordSum(d[..i + 2]) == WordSum(d[..i]) + Be16(d[i], d[i + 1])
  {
    assert d[..i + 2] == d[..i] + [d[i], d[i + 1]];
    WordSumConcat(d[..i], [d[i], d[i + 1]]);
    assert WordSum([d[i], d[i + 1]]) == Be16(d[i], d[i + 1]) + WordSum([]);
  }

  lemma WordSumLast(d: seq<byte>, i: nat)
    requires i % 2 == 0 && i + 1 == |d|
    ensures WordSum(d) == WordSum(d[..i]) + Be16(d[i], 0)
  {
    assert d == d[..i] + [d[i]];
    WordSumConcat(d[..i], [d[i]]);
  }

  /** The same two steps for an accumulator that wraps at 32 bits. */
  lemma AccumulateNext(start: u32, d: seq<byte>, i: nat)
    requires i % 2 == 0 && i + 2 <= |d|
    ensures WrappingAdd32(Wrap32(start + WordSum(d[..i])), Be16(d[i], d[i + 1])) == Wrap32(start + WordSum(d[..i + 2]))
  {
    WordSumNext(d, i);
    WrapAdd(start + WordSum(d[..i]), Be16(d[i], d[i + 1]));
  }

  lemma AccumulateLast(start: u32, d: seq<byte>, i: nat)
    requires i % 2 == 0 && i + 1 == |d|
    ensures WrappingAdd32(Wrap32(start + WordSum(d[..i])), Be16(d[i], 0)) == Wrap32(start + WordSum(d))
  {
    WordSumLast(d, i);
    WrapAdd(start + WordSum(d[..i]), Be16(d[i], 0));
  }

  function SetWord(d: seq<byte>, at: nat, w: u16): (r: seq<byte>)
    requires at + 2 <= |d|
    ensures |r| == |d|
  {
    d[at := Be16Bytes(w)[0]][at + 1 := Be16Bytes(w)[1]]
  }

  /** Replacing one aligned word changes the sum by exactly the difference of the words. */
  lemma {:induction false} WordSumSet(d: seq<byte>, at: nat, w: u16)
    requires at % 2 == 0 && at + 2 <= |d|
    ensures WordSum(SetWord(d, at, w)) == WordSum(d) - Be16(d[at], d[at + 1]) + w
  {
    var e := SetWord(d, at, w);
    WordSumSplit(d, at);
    WordSumSplit(e, at);
    assert d[..at] == e[..at] && d[at + 2..] == e[at + 2..];
  }

  lemma WordSumSplit(d: seq<byte>, at: nat)
    requires at % 2 == 0 && at + 2 <= |d|
    ensures WordSum(d) == WordSum(d[..at]) + Be16(d[at], d[at + 1]) + WordSum(d[at + 2..])
  {
    var a, b := d[..at + 2], d[at + 2..];
    assert d == a + b;
    WordSumConcat(a, b);
    WordSumNext(d, at);
  }

  /** Summing the same bytes on a little-endian host multiplies the residue by 256
      (section 2 of RFC 1071). `little` selects the host. */
  function NativeSum(d: seq<byte>, little: bool): nat {
    if |d| == 0 then 0
    else if |d| == 1 then Native16(d[0], 0, little)
    else Native16(d[0], d[1], little) + NativeSum(d[2..], little)
  }

  function Native16(b0: byte, b1: byte, little: bool): u16 {
    if little then Be16(b1, b0) else Be16(b0, b1)
  }

  /** `to_be`: the native word whose bytes in memory are the big-endian image of `w`. */
  function ToBe16(w: u16, little: bool): u16 {
    Native16(Be16Bytes(w)[0], Be16Bytes(w)[1], little)
  }

  function Scale(little: bool): nat {
    if little then 0x100 else 1
  }

  lemma ByteOrderWord(b0: byte, b1: byte, little: bool)
    ensures Congruent(Native16(b0, b1, little), Scale(little) * Be16(b0, b1))
  {
    var hi: int, lo: int := b0, b1;
    CongruentBy(lo * 0x100 + hi, 0x100 * (hi * 0x100 + lo), -hi);
    CongruentBy(hi * 0x100 + lo, hi * 0x100 + lo, 0);
  }

  lemma ToBeScaled(w: u16, little: bool)
    ensures Congruent(ToBe16(w, little), Scale(little) * w)
  {
    ByteOrderWord(Be16Bytes(w)[0], Be16Bytes(w)[1], little);
  }

  lemma {:induction false} ByteOrder(d: seq<byte>, little: bool)
    ensures Congruent(NativeSum(d, little), Scale(little) * WordSum(d))
  {
    if |d| > 1 {
      ByteOrder(d[2..], little);
      ByteOrderWord(d[0], d[1], little);
      Distribute(Scale(little), Be16(d[0], d[1]), WordSum(d[2..]));
      CongruentSum(Native16(d[0], d[1], little), Scale(little) * Be16(d[0], d[1]),
                   NativeSum(d[2..], little), Scale(little) * WordSum(d[2..]));
    } else if |d| == 1 {
      ByteOrderWord(d[0], 0, little);
    } else {
      CongruentBy(0, 0, 0);
    }
  }

  lemma Distribute(s: int, a: int, b: int)
    ensures s * (a + b) == s * a + s * b
  {
  }

  /** The factor 256 can be cancelled, so residues compare the same on both hosts. */
  lemma ScaleCancels(a: int, b: int, little: bool)
    requires Congruent(Scale(little) * a, Scale(little) * b)
    ensures Congruent(a, b)
  {
    if little {
      var q := Quotient(0x100 * a, 0x100 * b);
      CongruentBy(a, b, 0x100 * q - (a - b));
    }
  }
}
