/** Operations on 64-bit words: those of FIPS 180-4, section 3, and the forms in which lib/libtpm/sha512.c
    computes them. */
module Words64 {
  import opened Bytes
  import opened ShaPadding

  type Word = bv64

  function Add(x: Word, y: Word): Word { x + y }
  function Xor(x: Word, y: Word): Word { x ^ y }
  function Shr(x: Word, n: Word): Word
    requires n <= 64
  {
    x >> n
  }

  /** ROTR of section 3.2. */
  function RotR(x: Word, n: Word): Word
    requires n <= 64
  {
    (x >> n) | (x << (64 - n))
  }

  /** Ch and Maj of section 4.1.3. */
  function Ch(x: Word, y: Word, z: Word): Word { (x & y) ^ (!x & z) }
  function Maj(x: Word, y: Word, z: Word): Word { (x & y) ^ (x & z) ^ (y & z) }

  /** Complement by exclusive or with ones. */
  lemma ChWithXor(x: Word, y: Word, z: Word)
    ensures (x & y) ^ ((x ^ 0xffff_ffff_ffff_ffff) & z) == Ch(x, y, z)
  {
  }

  /** The rotate instruction by the amounts SHA-512 uses. */
  lemma RotatesRight(x: Word)
    ensures x.RotateRight(28) == RotR(x, 28) && x.RotateRight(34) == RotR(x, 34) && x.RotateRight(39) == RotR(x, 39)
    ensures x.RotateRight(14) == RotR(x, 14) && x.RotateRight(18) == RotR(x, 18) && x.RotateRight(41) == RotR(x, 41)
    ensures x.RotateRight(1) == RotR(x, 1) && x.RotateRight(8) == RotR(x, 8)
    ensures x.RotateRight(19) == RotR(x, 19) && x.RotateRight(61) == RotR(x, 61)
  {
  }

  function FromBe64(s: seq<byte>): uint64
    requires |s| == 8
  {
    var hi: int, lo: int := FromBe32(s[..4]), FromBe32(s[4..]);
    0x1_0000_0000 * hi + lo
  }

  /** The big-endian word at index `t`. */
  function WordAt(block: seq<byte>, t: nat): Word
    requires 8 * t + 8 <= |block|
  {
    FromBe64(block[8 * t..8 * t + 8]) as bv64
  }

  /** Words as bytes, big-endian. */
  function WordBytes(h: seq<Word>): (s: seq<byte>)
    ensures |s| == 8 * |h|
  {
    if h == [] then [] else WordBytes(h[..|h| - 1]) + Be64(h[|h| - 1] as int)
  }
}
