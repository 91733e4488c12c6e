/** The 32-bit FNV-1a hash that spreads clients over the address pool. */
module Fnv {
  import opened Words

  /** Exclusive or, bit by bit. */
  function Xor(a: nat, b: nat): nat {
    if a == 0 then b
    else if b == 0 then a
    else 2 * Xor(a / 2, b / 2) + (if a % 2 == b % 2 then 0 else 1)
  }

  /** One FNV-1a round: exclusive or with the byte, then a wrapping multiplication. */
  function HashRound(hash: u32, b: byte): u32 {
    Wrap32(Xor(hash, b) * 0x0100_0193)
  }

  function Hash(bytes: seq<byte>): u32 {
    if bytes == [] then 0x811c_9dc5
    else HashRound(Hash(bytes[..|bytes| - 1]), bytes[|bytes| - 1])
  }

  // ---------- what the hash computes ----------

  /** Bit `i` of a number. */
  predicate Bit(x: nat, i: nat) {
    if i == 0 then x % 2 == 1 else Bit(x / 2, i - 1)
  }

  /** The exclusive or, bit by bit. */
  lemma {:induction false} XorBits(a: nat, b: nat, i: nat)
    ensures Bit(Xor(a, b), i) <==> Bit(a, i) != Bit(b, i)
    decreases i
  {
    if a == 0 {
      NoBits(i);
    } else if b == 0 {
      NoBits(i);
    } else {
      HalfXor(a, b);
      if i > 0 {
        XorBits(a / 2, b / 2, i - 1);
      }
    }
  }

  lemma HalfXor(a: nat, b: nat)
    requires a > 0 && b > 0
    ensures Xor(a, b) / 2 == Xor(a / 2, b / 2) && Xor(a, b) % 2 == if a % 2 == b % 2 then 0 else 1
  {
  }

  lemma {:induction false} NoBits(i: nat)
    ensures !Bit(0, i)
  {
    if i > 0 {
      NoBits(i - 1);
    }
  }

  /** Bits determine the number, so the lemma above determines the exclusive or. */
  lemma {:induction false} BitsDetermine(a: nat, b: nat)
    requires forall i: nat :: Bit(a, i) <==> Bit(b, i)
    ensures a == b
  {
    assert Bit(a, 0) <==> Bit(b, 0);
    if a > 0 || b > 0 {
      forall i: nat
        ensures Bit(a / 2, i) <==> Bit(b / 2, i)
      {
        assert Bit(a, i + 1) <==> Bit(b, i + 1);
      }
      BitsDetermine(a / 2, b / 2);
    }
  }

  /** One round is FNV-1a's: the product of the exclusive or with 16777619, modulo 2^32. */
  lemma HashRoundIs(hash: u32, b: byte)
    ensures HashRound(hash, b) == Xor(hash, b) * 16777619 % 0x1_0000_0000
  {
    Wrap32IsRemainder(Xor(hash, b) * 16777619);
  }

  /** The hash starts at 2166136261 and takes one round for every byte, in order. */
  lemma HashIs(bytes: seq<byte>, b: byte)
    ensures Hash([]) == 2166136261 && Hash(bytes + [b]) == HashRound(Hash(bytes), b)
  {
    assert (bytes + [b])[..|bytes|] == bytes;
  }

  lemma {:induction false} XorCancels(a: nat, b: nat, c: nat)
    ensures Xor(a, b) == Xor(a, c) ==> b == c
    decreases a
  {
    if a > 0 && Xor(a, b) == Xor(a, c) {
      XorHalves(a, b);
      XorHalves(a, c);
      XorCancels(a / 2, b / 2, c / 2);
    }
  }

  lemma XorHalves(a: nat, b: nat)
    ensures Xor(a, b) / 2 == Xor(a / 2, b / 2) && (Xor(a, b) % 2 == 1 <==> a % 2 != b % 2)
  {
    if a > 0 && b > 0 {
      HalfXor(a, b);
    }
  }

  function Pow2(n: nat): (p: nat)
    ensures p >= 1
  {
    if n == 0 then 1 else 2 * Pow2(n - 1)
  }

  lemma {:induction false} XorBound(a: nat, b: nat, n: nat)
    requires a < Pow2(n) && b < Pow2(n)
    ensures Xor(a, b) < Pow2(n)
  {
    if n > 0 {
      XorHalves(a, b);
      XorBound(a / 2, b / 2, n - 1);
    }
  }

  lemma Pow2Of32()
    ensures Pow2(32) == 0x1_0000_0000
  {
    assert Pow2(8) == 0x100;
    assert Pow2(16) == 0x1_0000;
    assert Pow2(24) == 0x100_0000;
  }

  /** The multiplier is odd, so it can be cancelled modulo 2^32: 899433627 is its inverse. */
  lemma MultiplierCancels(d: int, q: int)
    requires d * 16777619 == 0x1_0000_0000 * q && -0x1_0000_0000 < d < 0x1_0000_0000
    ensures d == 0
  {
    assert 16777619 * 899433627 == 1 + 0x1_0000_0000 * 3513497;
    assert d * 16777619 * 899433627 == d + 0x1_0000_0000 * (d * 3513497);
    assert d == 0x1_0000_0000 * (q * 899433627 - d * 3513497);
  }

  lemma ProductsDiffer(x: nat, y: nat)
    requires x < 0x1_0000_0000 && y < 0x1_0000_0000
    requires x * 16777619 % 0x1_0000_0000 == y * 16777619 % 0x1_0000_0000
    ensures x == y
  {
    var a: int, b: int := x * 16777619, y * 16777619;
    var q := SameRemainder(a, b);
    var d: int := x;
    MultiplierCancels(d - y, q);
  }

  lemma SameRemainder(a: int, b: int) returns (q: int)
    requires a % 0x1_0000_0000 == b % 0x1_0000_0000
    ensures a - b == 0x1_0000_0000 * q
  {
    q := a / 0x1_0000_0000 - b / 0x1_0000_0000;
  }

  /** A round loses nothing: for the same hash, different bytes give different hashes. */
  lemma RoundSeparates(hash: u32, b: byte, c: byte)
    ensures HashRound(hash, b) == HashRound(hash, c) <==> b == c
  {
    if HashRound(hash, b) == HashRound(hash, c) {
      Pow2Of32();
      XorBound(hash, b, 32);
      XorBound(hash, c, 32);
      HashRoundIs(hash, b);
      HashRoundIs(hash, c);
      ProductsDiffer(Xor(hash, b), Xor(hash, c));
      XorCancels(hash, b, c);
    }
  }

  /** Two clients that differ in their last byte alone have different hashes. */
  lemma NeighboursHashApart(prefix: seq<byte>, b: byte, c: byte)
    ensures Hash(prefix + [b]) == Hash(prefix + [c]) <==> b == c
  {
    HashIs(prefix, b);
    HashIs(prefix, c);
    RoundSeparates(Hash(prefix), b, c);
  }

  /** `hs` lists the hashes of all prefixes of `bytes`. */
  predicate RoundAt(bytes: seq<byte>, hs: seq<u32>, i: nat)
    requires |hs| == |bytes| + 1 && i < |bytes|
  {
    hs[i + 1] == HashRound(hs[i], bytes[i])
  }

  lemma {:induction false} HashByRounds(bytes: seq<byte>, hs: seq<u32>, n: nat)
    requires |hs| == |bytes| + 1 && hs[0] == 0x811c_9dc5 && n <= |bytes|
    requires forall i :: 0 <= i < |bytes| ==> RoundAt(bytes, hs, i)
    ensures Hash(bytes[..n]) == hs[n]
  {
    if n > 0 {
      HashByRounds(bytes, hs, n - 1);
      assert RoundAt(bytes, hs, n - 1);
      HashIs(bytes[..n - 1], bytes[n - 1]);
      assert bytes[..n] == bytes[..n - 1] + [bytes[n - 1]];
    } else {
      assert bytes[..0] == [];
    }
  }

  lemma KnownXors()
    ensures Xor(0x811c_9dc5, 0xfd) == 0x811c_9d38 && Xor(0xd0c8_1ae8, 2) == 0xd0c8_1aea
  {
  }

  lemma RoundValue(hash: u32, b: byte, x: nat, q: nat, r: u32)
    requires Xor(hash, b) == x && x * 16777619 == 0x1_0000_0000 * q + r
    ensures HashRound(hash, b) == r
  {
    HashRoundIs(hash, b);
    var p := x * 16777619;
    LowWord(p, q, r);
  }

  lemma LowWord(p: nat, q: nat, r: u32)
    requires p == 0x1_0000_0000 * q + r
    ensures p % 0x1_0000_0000 == r
  {
  }

  /** A value to check the whole hash by: the address fd00::2 hashes to 0x95025e5e. */
  lemma KnownHash(vm: seq<byte>, hs: seq<u32>)
    requires vm == [0xfd, 0, 0, 0, 0, 0, 0, 0, 0, 0, 0, 0, 0, 0, 0, 2]
    requires hs == [0x811c_9dc5, 0x780b_7f28, 0x2219_2bf8, 0xa5a0_3768, 0x2337_38b8, 0x27ee_49a8,
                    0x841d_f378, 0x7326_45e8, 0x2d40_0c38, 0x73d3_3c28, 0x7d87_b2f8, 0x949e_bc68,
                    0x5de2_97b8, 0x83b4_d6a8, 0xfdad_ea78, 0xd0c8_1ae8, 0x9502_5e5e]
    ensures Hash(vm) == 0x9502_5e5e
  {
    KnownXors();
    RoundValue(hs[0], vm[0], 0x811c_9d38, 8461672, hs[1]);
    RoundValue(hs[1], vm[1], 0x780b_7f28, 7867452, hs[2]);
    RoundValue(hs[2], vm[2], 0x2219_2bf8, 2234721, hs[3]);
    RoundValue(hs[3], vm[3], 0xa5a0_3768, 10854716, hs[4]);
    RoundValue(hs[4], vm[4], 0x2337_38b8, 2307952, hs[5]);
    RoundValue(hs[5], vm[5], 0x27ee_49a8, 2616968, hs[6]);
    RoundValue(hs[6], vm[6], 0x841d_f378, 8658627, hs[7]);
    RoundValue(hs[7], vm[7], 0x7326_45e8, 7546619, hs[8]);
    RoundValue(hs[8], vm[8], 0x2d40_0c38, 2965587, hs[9]);
    RoundValue(hs[9], vm[9], 0x73d3_3c28, 7590898, hs[10]);
    RoundValue(hs[10], vm[10], 0x7d87_b2f8, 8226936, hs[11]);
    RoundValue(hs[11], vm[11], 0x949e_bc68, 9740198, hs[12]);
    RoundValue(hs[12], vm[12], 0x5de2_97b8, 6153003, hs[13]);
    RoundValue(hs[13], vm[13], 0x83b4_d6a8, 8631717, hs[14]);
    RoundValue(hs[14], vm[14], 0xfdad_ea78, 16625529, hs[15]);
    RoundValue(hs[15], vm[15], 0xd0c8_1aea, 13683043, hs[16]);
    forall i | 0 <= i < 16
      ensures RoundAt(vm, hs, i)
    {
    }
    HashByRounds(vm, hs, 16);
    assert vm[..16] == vm;
  }
}
