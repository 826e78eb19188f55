/** Operations on 32-bit words: those of FIPS 180-4, section 3, and the forms in which lib/libtpm computes
    them. */
module Words32 {
  import opened Bytes

  type Word = bv32

  function Add(x: Word, y: Word): Word { x + y }
  function Xor(x: Word, y: Word): Word { x ^ y }
  function Shr(x: Word, n: Word): Word
    requires n <= 32
  {
    x >> n
  }

  /** ROTR and ROTL of section 3.2. */
  function RotR(x: Word, n: Word): Word
    requires n <= 32
  {
    (x >> n) | (x << (32 - n))
  }

  function RotL(x: Word, n: Word): Word
    requires n <= 32
  {
    (x << n) | (x >> (32 - n))
  }

  /** Ch, Maj and Parity of section 4.1. */
  function Ch(x: Word, y: Word, z: Word): Word { (x & y) ^ (!x & z) }
  function Maj(x: Word, y: Word, z: Word): Word { (x & y) ^ (x & z) ^ (y & z) }
  function Parity(x: Word, y: Word, z: Word): Word { x ^ y ^ z }

  /** Ch and Maj with inclusive or, as the firmware has them. */
  function ChOf(x: Word, y: Word, z: Word): Word { (x & y) | ((x ^ 0xffff_ffff) & z) }
  function MajOf(x: Word, y: Word, z: Word): Word { (x & y) | (x & z) | (y & z) }

  lemma ChWithOr(x: Word, y: Word, z: Word)
    ensures (x & y) | ((x ^ 0xffff_ffff) & z) == Ch(x, y, z)
  {
  }

  lemma MajWithOr(x: Word, y: Word, z: Word)
    ensures (x & y) | (x & z) | (y & z) == Maj(x, y, z)
  {
  }

  lemma ChAndMaj(x: Word, y: Word, z: Word)
    ensures ChOf(x, y, z) == Ch(x, y, z) && MajOf(x, y, z) == Maj(x, y, z)
  {
    hide Ch, Maj;
    ChWithOr(x, y, z);
    MajWithOr(x, y, z);
  }

  /** The rotate instructions by the amounts SHA-256 and SHA-1 use. */
  lemma RotatesRight(x: Word)
    ensures x.RotateRight(2) == RotR(x, 2) && x.RotateRight(13) == RotR(x, 13) && x.RotateRight(22) == RotR(x, 22)
    ensures x.RotateRight(6) == RotR(x, 6) && x.RotateRight(11) == RotR(x, 11) && x.RotateRight(25) == RotR(x, 25)
    ensures x.RotateRight(7) == RotR(x, 7) && x.RotateRight(18) == RotR(x, 18)
    ensures x.RotateRight(17) == RotR(x, 17) && x.RotateRight(19) == RotR(x, 19)
  {
  }

  lemma RotatesLeft(x: Word)
    ensures x.RotateLeft(1) == RotL(x, 1) && x.RotateLeft(5) == RotL(x, 5) && x.RotateLeft(30) == RotL(x, 30)
  {
  }

  /** The big-endian word at index `t`. */
  function WordAt(block: seq<byte>, t: nat): Word
    requires 4 * t + 4 <= |block|
  {
    FromBe32(block[4 * t..4 * t + 4]) as bv32
  }

  /** Words as bytes, big-endian. */
  function WordBytes(h: seq<Word>): (s: seq<byte>)
    ensures |s| == 4 * |h|
  {
    if h == [] then [] else WordBytes(h[..|h| - 1]) + Be32(h[|h| - 1] as int)
  }
}
