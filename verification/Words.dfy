/** Fixed-width unsigned values and their big-endian byte images.

    Every width is written out as a subset type of `int`; the places where the
    program relies on wrap-around or saturation call the functions below. */
module Words {

  type byte = x: int | 0 <= x < 0x100
  type u16 = x: int | 0 <= x < 0x1_0000
  type u32 = x: int | 0 <= x < 0x1_0000_0000
  type u64 = x: int | 0 <= x < 0x1_0000_0000_0000_0000

  const MAX_U64: u64 := 0xFFFF_FFFF_FFFF_FFFF

  datatype Option<+T> = None | Some(value: T)

  /** Truncation to 32 bits. */
  function Wrap32(x: nat): u32 {
    if x < 0x1_0000_0000 then x else Wrap32(x - 0x1_0000_0000)
  }

  /** Truncation to 16 bits. */
  function Wrap16(x: nat): u16 {
    if x < 0x1_0000 then x else Wrap16(x - 0x1_0000)
  }

  lemma {:induction false} Wrap32IsRemainder(x: nat)
    ensures Wrap32(x) == x % 0x1_0000_0000
  {
    if x >= 0x1_0000_0000 {
      Wrap32IsRemainder(x - 0x1_0000_0000);
    }
  }

  function WrappingAdd32(a: u32, b: u32): u32 {
    Wrap32(a + b)
  }

  lemma WrapAdd(x: nat, b: u32)
    ensures WrappingAdd32(Wrap32(x), b) == Wrap32(x + b)
  {
    Wrap32IsRemainder(x);
    Wrap32IsRemainder(x + b);
    Wrap32IsRemainder(Wrap32(x) + b);
  }

  lemma WrapTwice(x: nat, a: nat, b: nat)
    ensures Wrap32(Wrap32(x + a) + b) == Wrap32(x + a + b)
  {
    Wrap32IsRemainder(x + a);
    Wrap32IsRemainder(Wrap32(x + a) + b);
    Wrap32IsRemainder(x + a + b);
  }

  lemma RemainderIs(v: int, q: int, r: nat, span: nat)
    requires r < span && v == q * span + r
    ensures v % span == r
  {
    var d := v / span - q;
    assert v == (v / span) * span + v % span;
    assert d * span == r - v % span;
    MultipleOf(d, span);
  }

  lemma MultipleOf(d: int, span: int)
    requires span > 0
    ensures d >= 1 ==> d * span >= span
    ensures d <= -1 ==> d * span <= -span
  {
  }

  function SaturatingSub(a: nat, b: nat): nat {
    if a < b then 0 else a - b
  }

  function Be16(hi: byte, lo: byte): u16 {
    hi * 0x100 + lo
  }

  /** `to_be_bytes`: the two bytes that read back as the value. */
  function Be16Bytes(w: u16): (b: seq<byte>)
    ensures |b| == 2 && Be16(b[0], b[1]) == w
  {
    Be16Split(w);
    var hi: byte, lo: byte :| Be16(hi, lo) == w;
    [hi, lo]
  }

  lemma Be16Split(w: u16)
    ensures Be16(w / 0x100, w % 0x100) == w
  {
  }

  /** `dst[at..at + |src|].copy_from_slice(src)`. */
  function CopyInto(dst: seq<byte>, at: nat, src: seq<byte>): (r: seq<byte>)
    requires at + |src| <= |dst|
    ensures |r| == |dst|
  {
    dst[..at] + src + dst[at + |src|..]
  }

  function Zeros(n: nat): (z: seq<byte>)
    ensures |z| == n
  {
    seq(n, _ => 0)
  }

  /** Two words make a 32-bit value. */
  function Join(hi: u16, lo: u16): u32 {
    hi * 0x1_0000 + lo
  }

  function Be32(b0: byte, b1: byte, b2: byte, b3: byte): u32 {
    Join(Be16(b0, b1), Be16(b2, b3))
  }

  /** The numbers in plain digits: the first byte is the most significant. */
  lemma Be32Digits(b0: byte, b1: byte, b2: byte, b3: byte)
    ensures Be16(b0, b1) == 256 * b0 + b1
    ensures Be32(b0, b1, b2, b3) == 16777216 * b0 + 65536 * b1 + 256 * b2 + b3
  {
  }

  function Be32Bytes(v: u32): (b: seq<byte>)
    ensures |b| == 4 && Be32(b[0], b[1], b[2], b[3]) == v
  {
    var w := WordsOf(v);
    Be16Bytes(w.0) + Be16Bytes(w.1)
  }

  function WordsOf(v: u32): (w: (u16, u16))
    ensures Join(w.0, w.1) == v
  {
    JoinSplit(v);
    var hi: u16, lo: u16 :| Join(hi, lo) == v;
    (hi, lo)
  }

  /** `v >> 16` and `v & 0xffff` are the two words of a value. */
  lemma JoinSplit(v: u32)
    ensures Join(v / 0x1_0000, v % 0x1_0000) == v
  {
  }

  lemma WordsByShift(v: u32)
    ensures WordsOf(v) == (v / 0x1_0000, v % 0x1_0000)
  {
    JoinSplit(v);
    JoinUnique(WordsOf(v).0, WordsOf(v).1, v / 0x1_0000, v % 0x1_0000);
  }

  lemma JoinUnique(hi: u16, lo: u16, hi': u16, lo': u16)
    ensures Join(hi, lo) == Join(hi', lo') <==> hi == hi' && lo == lo'
  {
  }

  /** The big-endian image determines the value: decoding after encoding, the other way round. */
  lemma Be16BytesInverse(hi: byte, lo: byte)
    ensures Be16Bytes(Be16(hi, lo)) == [hi, lo]
  {
    var b := Be16Bytes(Be16(hi, lo));
    assert Be16(b[0], b[1]) == Be16(hi, lo);
  }

  lemma Be32BytesInverse(b0: byte, b1: byte, b2: byte, b3: byte)
    ensures Be32Bytes(Be32(b0, b1, b2, b3)) == [b0, b1, b2, b3]
  {
    var b := Be32Bytes(Be32(b0, b1, b2, b3));
    JoinUnique(Be16(b[0], b[1]), Be16(b[2], b[3]), Be16(b0, b1), Be16(b2, b3));
    Be16Unique(b[0], b[1], b0, b1);
    Be16Unique(b[2], b[3], b2, b3);
  }

  /** Four bytes that read back as a value are its image. */
  lemma BytesOfValue(v: u32, b: seq<byte>)
    requires |b| == 4 && Be32(b[0], b[1], b[2], b[3]) == v
    ensures Be32Bytes(v) == b
  {
    Be32BytesInverse(b[0], b[1], b[2], b[3]);
  }

  lemma Be16Unique(hi: byte, lo: byte, hi': byte, lo': byte)
    ensures Be16(hi, lo) == Be16(hi', lo') <==> hi == hi' && lo == lo'
  {
  }
}
