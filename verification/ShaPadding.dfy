/** Message padding of FIPS 180-4, section 5.1, and the blocks the firmware builds instead of padding. */
module ShaPadding {
  import opened Arith
  import opened Bytes

  type uint64 = x: int | 0 <= x < 0x1_0000_0000_0000_0000

  function Be64(v: uint64): (s: seq<byte>)
    ensures |s| == 8
  {
    Be32(v / 0x1_0000_0000) + Be32(v % 0x1_0000_0000)
  }

  lemma Be64IsInjective(v: uint64, w: uint64)
    ensures Be64(v) == Be64(w) ==> v == w
  {
    assert Be64(v)[..4] == Be32(v / 0x1_0000_0000) && Be64(v)[4..] == Be32(v % 0x1_0000_0000);
    assert Be64(w)[..4] == Be32(w / 0x1_0000_0000) && Be64(w)[4..] == Be32(w % 0x1_0000_0000);
  }

  /** A length field of 8 or 16 bytes with a 64-bit value. */
  function LengthField(size: nat, bits: uint64): (s: seq<byte>)
    requires size >= 8
    ensures |s| == size
  {
    Fill(0, size - 8) + Be64(bits)
  }

  /** The number of zero bytes: the smallest one that completes the last block. */
  function ZeroBytes(len: nat, block: nat, size: nat): (k: nat)
    requires block > 0
    ensures k < block && (len + 1 + k + size) % block == 0
  {
    var r := (len + 1 + size) % block;
    if r == 0 then 0 else
      assert (len + 1 + (block - r) + size) % block == 0 by {
        Completes(len + 1 + size, block);
      }
      block - r
  }

  lemma Completes(x: nat, block: nat)
    requires block > 0 && x % block > 0
    ensures (x + (block - x % block)) % block == 0
  {
    assert x + (block - x % block) == (x / block + 1) * block;
    MultipleOf(x / block + 1, block);
  }

  /** The padded message, with `bits` in its length field. */
  function Pad(m: seq<byte>, block: nat, size: nat, bits: uint64): (p: seq<byte>)
    requires block > 0 && size >= 8
    ensures |p| % block == 0 && |p| >= |m|
  {
    m + [0x80] + Fill(0, ZeroBytes(|m|, block, size)) + LengthField(size, bits)
  }

  /** The blocks behind the last full one: one block, or two if the length field does not fit into the
      first. */
  function LastBlocks(rest: seq<byte>, block: nat, size: nat, bits: uint64): (p: seq<byte>)
    requires |rest| < block && 8 <= size < block
    ensures |p| == block || |p| == 2 * block
  {
    if |rest| + size < block then
      rest + [0x80] + Fill(0, block - 1 - |rest| - size) + LengthField(size, bits)
    else
      rest + [0x80] + Fill(0, block - 1 - |rest|) + (Fill(0, block - size) + LengthField(size, bits))
  }

  lemma ZeroBytesOf(len: nat, n: nat, block: nat, size: nat)
    requires block > 0 && size < block && n <= len && n % block == 0 && len - n < block
    ensures ZeroBytes(len, block, size) ==
            if len - n + size < block then block - 1 - (len - n) - size else 2 * block - 1 - (len - n) - size
  {
    var k := ZeroBytes(len, block, size);
    var r, q := len - n, n / block;
    var x := len + 1 + k + size;
    assert x == (x / block) * block;
    var p := x / block;
    assert n == q * block;
    assert (p - q) * block == r + 1 + k + size;
    Compare(p - q, 0, block);
    Compare(p - q, 2, block);
    assert p - q == 1 || p - q == 2;
  }

  /** The firmware hashes exactly the blocks of the padded message. */
  lemma PadEndsInLastBlocks(m: seq<byte>, n: nat, block: nat, size: nat, bits: uint64)
    requires n <= |m| && 8 <= size < block && n % block == 0 && |m| - n < block
    ensures Pad(m, block, size, bits) == m[..n] + LastBlocks(m[n..], block, size, bits)
  {
    hide ZeroBytes, LengthField;
    ZeroBytesOf(|m|, n, block, size);
  }

  // ----- the streaming loop

  /** A full block of the message is the next block of the padded message. */
  lemma FullBlock(data: seq<byte>, block: nat, size: nat, bits: uint64, offset: nat)
    requires 8 <= size < block && offset + block <= |data| && offset % block == 0
    ensures var p := Pad(data, block, size, bits);
            p[offset..] == data[offset..offset + block] + p[offset + block..] && |p[offset + block..]| % block == 0
  {
    hide ZeroBytes, LengthField;
    var p := Pad(data, block, size, bits);
    Quotients(|p|, offset + block, block);
  }

  lemma Quotients(x: nat, y: nat, b: nat)
    requires b > 0 && x % b == 0 && b <= y <= x && (y - b) % b == 0
    ensures (x - y) % b == 0
  {
    var p, q := x / b, (y - b) / b;
    assert x == p * b && y - b == q * b;
    Distribute(p - q - 1, q + 1, b);
    Distribute(q, 1, b);
    Compare(p, q, b);
    MultipleOf(p - q - 1, b);
  }

  /** What is left of the padded message behind the full blocks. */
  lemma LastBlocksLeft(data: seq<byte>, block: nat, size: nat, bits: uint64, offset: nat)
    requires 8 <= size < block && offset <= |data| && offset % block == 0 && |data| - offset < block
    ensures Pad(data, block, size, bits)[offset..] == LastBlocks(data[offset..], block, size, bits)
  {
    hide Pad, LastBlocks;
    PadEndsInLastBlocks(data, offset, block, size, bits);
  }

  lemma WholeBlock(m: seq<byte>, s: seq<byte>)
    requires |s| <= |m|
    ensures |m| == |s| ==> Patch(m, 0, s) == s
  {
  }

  // ----- the last blocks

  /** The rest of the message, the end mark and zeros. */
  function Ended(rest: seq<byte>, block: nat): (b: seq<byte>)
    requires |rest| < block
    ensures |b| == block
  {
    rest + [0x80] + Fill(0, block - (|rest| + 1))
  }

  /** The stores that build it. */
  lemma PadsBlock(m: seq<byte>, rest: seq<byte>)
    requires |rest| < |m|
    ensures var m1, zeros := Patch(m, 0, rest)[|rest| := 0x80], |m| - (|rest| + 1);
            Ended(rest, |m|) == if zeros > 0 then Patch(m1, |rest| + 1, Fill(0, zeros)) else m1
  {
  }

  lemma OneBlockLeft(rest: seq<byte>, block: nat, size: nat, bits: uint64, last: seq<byte>)
    requires 8 <= size < block && |rest| < block - size && last == Patch(Ended(rest, block), block - 8, Be64(bits))
    ensures LastBlocks(rest, block, size, bits) == last
  {
    hide Be64;
  }

  /** If the length field does not fit, `zeros` bytes of the block are cleared and take it. */
  lemma TwoBlocksLeft(rest: seq<byte>, block: nat, size: nat, bits: uint64, zeros: nat, first: seq<byte>,
                      last: seq<byte>)
    requires 8 <= size < block && block - size <= |rest| < block && first == Ended(rest, block)
    requires block - 8 <= zeros <= block && last == Patch(Patch(first, 0, Fill(0, zeros)), block - 8, Be64(bits))
    ensures LastBlocks(rest, block, size, bits) == first + last
  {
    hide Be64, Patch;
    var end := Be64(bits);
    ClearedBlock(first, zeros, end);
    assert Fill(0, block - size) + (Fill(0, size - 8) + end) == Fill(0, block - 8) + end;
  }

  lemma ClearedBlock(first: seq<byte>, zeros: nat, end: seq<byte>)
    requires |end| == 8 && 8 <= |first| && |first| - 8 <= zeros <= |first|
    ensures Patch(Patch(first, 0, Fill(0, zeros)), |first| - 8, end) == Fill(0, |first| - 8) + end
  {
    hide Patch;
    var b := Patch(Patch(first, 0, Fill(0, zeros)), |first| - 8, end);
    assert forall i :: 0 <= i < |first| ==> b[i] == (Fill(0, |first| - 8) + end)[i];
  }

  // ----- the bit counter

  const BITS32 := 0x1_0000_0000
  const BITS64 := 0x1_0000_0000_0000_0000

  /** The counter of the message bits, of 32 or 64 bits. */
  function BitCount(len: nat, limit: nat): uint64
    requires limit == BITS32 || limit == BITS64
  {
    8 * len % limit
  }

  lemma NoBits(limit: nat)
    requires limit == BITS32 || limit == BITS64
    ensures BitCount(0, limit) == 0
  {
  }

  lemma MoreBits(a: nat, b: nat, limit: nat)
    requires limit == BITS32 || limit == BITS64
    ensures BitCount(a + b, limit) == (BitCount(a, limit) + b * 8) % limit
  {
  }
}
