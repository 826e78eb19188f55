/** SHA-512 and SHA-384 of lib/libtpm/sha512.c against FIPS 180-4. */
module Sha512 {
  import opened Bytes
  import opened ShaPadding
  import opened Words64

  /** The bytes of a block, and of the length field at the end of the message. */
  const BLOCK := 128
  const LENGTH := 16

  // ----- FIPS 180-4

  /** Section 4.1.3. */
  function BigSigma0(x: Word): Word { Xor(Xor(RotR(x, 28), RotR(x, 34)), RotR(x, 39)) }
  function BigSigma1(x: Word): Word { Xor(Xor(RotR(x, 14), RotR(x, 18)), RotR(x, 41)) }
  function SmallSigma0(x: Word): Word { Xor(Xor(RotR(x, 1), RotR(x, 8)), Shr(x, 7)) }
  function SmallSigma1(x: Word): Word { Xor(Xor(RotR(x, 19), RotR(x, 61)), Shr(x, 6)) }

  /** Section 4.2.3. */
  function K(): (k: seq<Word>)
    ensures |k| == 80
  {
    K0() + K16() + K32() + K48() + K64()
  }

  function K0(): (k: seq<Word>)
    ensures |k| == 16
  {
    [
      0x428a2f98d728ae22, 0x7137449123ef65cd, 0xb5c0fbcfec4d3b2f, 0xe9b5dba58189dbbc,
      0x3956c25bf348b538, 0x59f111f1b605d019, 0x923f82a4af194f9b, 0xab1c5ed5da6d8118,
      0xd807aa98a3030242, 0x12835b0145706fbe, 0x243185be4ee4b28c, 0x550c7dc3d5ffb4e2,
      0x72be5d74f27b896f, 0x80deb1fe3b1696b1, 0x9bdc06a725c71235, 0xc19bf174cf692694
    ]
  }

  function K16(): (k: seq<Word>)
    ensures |k| == 16
  {
    [
      0xe49b69c19ef14ad2, 0xefbe4786384f25e3, 0x0fc19dc68b8cd5b5, 0x240ca1cc77ac9c65,
      0x2de92c6f592b0275, 0x4a7484aa6ea6e483, 0x5cb0a9dcbd41fbd4, 0x76f988da831153b5,
      0x983e5152ee66dfab, 0xa831c66d2db43210, 0xb00327c898fb213f, 0xbf597fc7beef0ee4,
      0xc6e00bf33da88fc2, 0xd5a79147930aa725, 0x06ca6351e003826f, 0x142929670a0e6e70
    ]
  }

  function K32(): (k: seq<Word>)
    ensures |k| == 16
  {
    [
      0x27b70a8546d22ffc, 0x2e1b21385c26c926, 0x4d2c6dfc5ac42aed, 0x53380d139d95b3df,
      0x650a73548baf63de, 0x766a0abb3c77b2a8, 0x81c2c92e47edaee6, 0x92722c851482353b,
      0xa2bfe8a14cf10364, 0xa81a664bbc423001, 0xc24b8b70d0f89791, 0xc76c51a30654be30,
      0xd192e819d6ef5218, 0xd69906245565a910, 0xf40e35855771202a, 0x106aa07032bbd1b8
    ]
  }

  function K48(): (k: seq<Word>)
    ensures |k| == 16
  {
    [
      0x19a4c116b8d2d0c8, 0x1e376c085141ab53, 0x2748774cdf8eeb99, 0x34b0bcb5e19b48a8,
      0x391c0cb3c5c95a63, 0x4ed8aa4ae3418acb, 0x5b9cca4f7763e373, 0x682e6ff3d6b2b8a3,
      0x748f82ee5defb2fc, 0x78a5636f43172f60, 0x84c87814a1f0ab72, 0x8cc702081a6439ec,
      0x90befffa23631e28, 0xa4506cebde82bde9, 0xbef9a3f7b2c67915, 0xc67178f2e372532b
    ]
  }

  function K64(): (k: seq<Word>)
    ensures |k| == 16
  {
    [
      0xca273eceea26619c, 0xd186b8c721c0c207, 0xeada7dd6cde0eb1e, 0xf57d4f7fee6ed178,
      0x06f067aa72176fba, 0x0a637dc5a2c898a6, 0x113f9804bef90dae, 0x1b710b35131c471b,
      0x28db77f523047d84, 0x32caab7b40c72493, 0x3c9ebe0a15c9bebc, 0x431d67c49c100d4c,
      0x4cc5d4becb3e42b6, 0x597f299cfc657e2a, 0x5fcb6fab3ad6faec, 0x6c44198c4a475817
    ]
  }

  /** The message schedule, step 1 of section 6.4.2. */
  function W(block: seq<byte>, t: nat): Word
    requires |block| == BLOCK && t < 80
  {
    if t < 16 then WordAt(block, t)
    else Add(Add(Add(SmallSigma1(W(block, t - 2)), W(block, t - 7)), SmallSigma0(W(block, t - 15))), W(block, t - 16))
  }

  /** The working variables. */
  datatype Vars = Vars(a: Word, b: Word, c: Word, d: Word, e: Word, f: Word, g: Word, h: Word)

  /** Step 3 for one t. */
  function Round(v: Vars, k: Word, w: Word): Vars {
    var t1 := Add(Add(Add(Add(v.h, BigSigma1(v.e)), Ch(v.e, v.f, v.g)), k), w);
    var t2 := Add(BigSigma0(v.a), Maj(v.a, v.b, v.c));
    Vars(Add(t1, t2), v.a, v.b, v.c, Add(v.d, t1), v.e, v.f, v.g)
  }

  function Rounds(v: Vars, block: seq<byte>, t: nat): Vars
    requires |block| == BLOCK && t <= 80
  {
    if t == 0 then v else Round(Rounds(v, block, t - 1), K()[t - 1], W(block, t - 1))
  }

  function VarsOf(h: seq<Word>): Vars
    requires |h| == 8
  {
    Vars(h[0], h[1], h[2], h[3], h[4], h[5], h[6], h[7])
  }

  /** Step 4. */
  function Sums(h: seq<Word>, v: Vars): (r: seq<Word>)
    requires |h| == 8
    ensures |r| == 8
  {
    [Add(h[0], v.a), Add(h[1], v.b), Add(h[2], v.c), Add(h[3], v.d),
     Add(h[4], v.e), Add(h[5], v.f), Add(h[6], v.g), Add(h[7], v.h)]
  }

  /** The compression of one block. */
  function Compress(h: seq<Word>, block: seq<byte>): (r: seq<Word>)
    requires |h| == 8 && |block| == BLOCK
    ensures |r| == 8
  {
    var all: nat := 80;
    Sums(h, Rounds(VarsOf(h), block, all))
  }

  /** The hash after all blocks of a padded message. */
  function HashBlocks(h: seq<Word>, p: seq<byte>): (r: seq<Word>)
    requires |h| == 8 && |p| % BLOCK == 0
    ensures |r| == 8
    decreases |p|
  {
    if p == [] then h else HashBlocks(Compress(h, p[..BLOCK]), p[BLOCK..])
  }

  /** Section 5.3.5. */
  function InitialHash512(): (h: seq<Word>)
    ensures |h| == 8
  {
    [0x6a09e667f3bcc908, 0xbb67ae8584caa73b, 0x3c6ef372fe94f82b, 0xa54ff53a5f1d36f1,
     0x510e527fade682d1, 0x9b05688c2b3e6c1f, 0x1f83d9abfb41bd6b, 0x5be0cd19137e2179]
  }

  /** Section 5.3.4. */
  function InitialHash384(): (h: seq<Word>)
    ensures |h| == 8
  {
    [0xcbbb9d5dc1059ed8, 0x629a292a367cd507, 0x9159015a3070dd17, 0x152fecd8f70e5939,
     0x67332667ffc00b31, 0x8eb44a8768581511, 0xdb0c2e0d64f98fa7, 0x47b5481dbefa4fa4]
  }

  function HashFrom(h: seq<Word>, m: seq<byte>): (r: seq<Word>)
    requires |h| == 8 && |m| < 0x2000_0000_0000_0000
    ensures |r| == 8
  {
    HashBlocks(h, Pad(m, BLOCK, LENGTH, 8 * |m|))
  }

  /** SHA-512, section 6.4. */
  function Hash512(m: seq<byte>): (s: seq<byte>)
    requires |m| < 0x2000_0000_0000_0000
    ensures |s| == 64
  {
    WordBytes(HashFrom(InitialHash512(), m))
  }

  /** SHA-384, section 6.5: the six leftmost words. */
  function Hash384(m: seq<byte>): (s: seq<byte>)
    requires |m| < 0x2000_0000_0000_0000
    ensures |s| == 48
  {
    WordBytes(HashFrom(InitialHash384(), m)[..6])
  }

  // ----- the functions of the firmware

  function Sum0(x: Word): Word { Xor(Xor(x.RotateRight(28), x.RotateRight(34)), x.RotateRight(39)) }
  function Sum1(x: Word): Word { Xor(Xor(x.RotateRight(14), x.RotateRight(18)), x.RotateRight(41)) }
  function Sigma0(x: Word): Word { Xor(Xor(x.RotateRight(1), x.RotateRight(8)), Shr(x, 7)) }
  function Sigma1(x: Word): Word { Xor(Xor(x.RotateRight(19), x.RotateRight(61)), Shr(x, 6)) }
  function ChOf(x: Word, y: Word, z: Word): Word { (x & y) ^ ((x ^ 0xffff_ffff_ffff_ffff) & z) }
  function MajOf(x: Word, y: Word, z: Word): Word { (x & y) ^ (x & z) ^ (y & z) }

  lemma ChAndMaj(x: Word, y: Word, z: Word)
    ensures ChOf(x, y, z) == Ch(x, y, z) && MajOf(x, y, z) == Maj(x, y, z)
  {
    hide Ch;
    ChWithXor(x, y, z);
  }

  /** They are the functions of the standard. */
  lemma SigmasAre(x: Word)
    ensures Sum0(x) == BigSigma0(x) && Sum1(x) == BigSigma1(x)
    ensures Sigma0(x) == SmallSigma0(x) && Sigma1(x) == SmallSigma1(x)
  {
    hide Xor, RotR, Shr;
    RotatesRight(x);
  }

  // ----- the block function

  /** The block function: the compression of the block in `buf`. */
  method Block(buf: array<byte>, h: array<Word>)
    requires buf.Length == BLOCK && h.Length == 8
    modifies h
    ensures h[..] == Compress(old(h[..]), buf[..])
  {
    hide Add, Sum0, Sum1, ChOf, MajOf, K, Rounds, W, Compress, Sums;
    var w := Schedule(buf);
    var a, b, c, d := h[0], h[1], h[2], h[3];
    var e, f, g, hh := h[4], h[5], h[6], h[7];
    ghost var v, block := VarsOf(h[..]), buf[..];
    NoRounds(v, block);
    var t := 0;
    while t <= 79
      modifies {}
      invariant 0 <= t <= 80 && Vars(a, b, c, d, e, f, g, hh) == Rounds(v, block, t)
    {
      var t1 := Add(Add(Add(Add(hh, Sum1(e)), ChOf(e, f, g)), K()[t]), w[t]);
      var t2 := Add(Sum0(a), MajOf(a, b, c));
      assert w[t] == W(block, t);
      OneRound(v, block, t, Vars(a, b, c, d, e, f, g, hh), w[t]);
      hh := g;
      g := f;
      f := e;
      e := Add(d, t1);
      d := c;
      c := b;
      b := a;
      a := Add(t1, t2);
      t := t + 1;
    }
    assert h[..] == old(h[..]) && buf[..] == block;
    CompressIs(h[..], block, Vars(a, b, c, d, e, f, g, hh), t);
    AddSums(h, Vars(a, b, c, d, e, f, g, hh));
    assert buf[..] == block;
  }

  lemma NoRounds(v: Vars, block: seq<byte>)
    requires |block| == BLOCK
    ensures Rounds(v, block, 0) == v
  {
  }

  /** One turn of the loop of the block function is one round. */
  lemma OneRound(v: Vars, block: seq<byte>, t: nat, u: Vars, w: Word)
    requires |block| == BLOCK && t < 80 && u == Rounds(v, block, t) && w == W(block, t)
    ensures var t1 := Add(Add(Add(Add(u.h, Sum1(u.e)), ChOf(u.e, u.f, u.g)), K()[t]), w);
            var t2 := Add(Sum0(u.a), MajOf(u.a, u.b, u.c));
            Rounds(v, block, t + 1) == Vars(Add(t1, t2), u.a, u.b, u.c, Add(u.d, t1), u.e, u.f, u.g)
  {
    hide W, K, Add, Sum0, Sum1, ChOf, MajOf, BigSigma0, BigSigma1, Ch, Maj;
    SigmasAre(u.a);
    SigmasAre(u.e);
    ChAndMaj(u.e, u.f, u.g);
    ChAndMaj(u.a, u.b, u.c);
  }

  lemma CompressIs(h: seq<Word>, block: seq<byte>, last: Vars, all: nat)
    requires |h| == 8 && |block| == BLOCK && all == 80 && last == Rounds(VarsOf(h), block, all)
    ensures Compress(h, block) == Sums(h, last)
  {
    hide Rounds, Sums;
  }

  method AddTo(h: array<Word>, i: nat, x: Word)
    requires i < h.Length
    modifies h
    ensures h[..] == old(h[..])[i := Add(old(h[i]), x)]
  {
    h[i] := Add(h[i], x);
  }

  /** The last step of the block function. */
  method AddSums(h: array<Word>, v: Vars)
    requires h.Length == 8
    modifies h
    ensures h[..] == Sums(old(h[..]), v)
  {
    hide Add, Sums;
    SumsInPlace(h[..], v);
    AddTo(h, 0, v.a);
    AddTo(h, 1, v.b);
    AddTo(h, 2, v.c);
    AddTo(h, 3, v.d);
    AddTo(h, 4, v.e);
    AddTo(h, 5, v.f);
    AddTo(h, 6, v.g);
    AddTo(h, 7, v.h);
  }

  lemma SumsInPlace(h: seq<Word>, v: Vars)
    requires |h| == 8
    ensures Sums(h, v) ==
            h[0 := Add(h[0], v.a)][1 := Add(h[1], v.b)][2 := Add(h[2], v.c)][3 := Add(h[3], v.d)]
             [4 := Add(h[4], v.e)][5 := Add(h[5], v.f)][6 := Add(h[6], v.g)][7 := Add(h[7], v.h)]
  {
    hide Add;
  }

  /** The message schedule: the 16 words of the block, extended in place. */
  method Schedule(buf: array<byte>) returns (w: array<Word>)
    requires buf.Length == BLOCK
    ensures fresh(w) && w.Length == 80
    ensures forall t :: 0 <= t < 80 ==> w[t] == W(buf[..], t)
  {
    hide W, WordAt, Add, Sigma0, Sigma1;
    w := new Word[80];
    ghost var block := buf[..];
    var t := 0;
    while t <= 15
      invariant 0 <= t <= 16 && forall i :: 0 <= i < t ==> w[i] == W(block, i)
    {
      FirstWords(block, t);
      w[t] := WordAt(buf[..], t);
      t := t + 1;
    }
    while t <= 79
      invariant 16 <= t <= 80 && forall i :: 0 <= i < t ==> w[i] == W(block, i)
    {
      LaterWords(block, t);
      w[t] := Add(Add(Add(Sigma1(w[t - 2]), w[t - 7]), Sigma0(w[t - 15])), w[t - 16]);
      t := t + 1;
    }
  }

  lemma FirstWords(block: seq<byte>, t: nat)
    requires |block| == BLOCK && t < 16
    ensures W(block, t) == WordAt(block, t)
  {
  }

  lemma LaterWords(block: seq<byte>, t: nat)
    requires |block| == BLOCK && 16 <= t < 80
    ensures W(block, t) ==
            Add(Add(Add(Sigma1(W(block, t - 2)), W(block, t - 7)), Sigma0(W(block, t - 15))), W(block, t - 16))
  {
    hide SmallSigma0, SmallSigma1, Sigma0, Sigma1, Sum0, Sum1, BigSigma0, BigSigma1, WordAt, Add;
    SigmasAre(W(block, t - 2));
    SigmasAre(W(block, t - 15));
  }

  // ----- the message

  lemma OneBlock(h: seq<Word>, b: seq<byte>)
    requires |h| == 8 && |b| == BLOCK
    ensures HashBlocks(h, b) == Compress(h, b)
  {
    hide Compress;
    assert b[..BLOCK] == b && b[BLOCK..] == [];
  }

  lemma NextBlock(h: seq<Word>, b: seq<byte>, p: seq<byte>)
    requires |h| == 8 && |b| == BLOCK && |p| % BLOCK == 0
    ensures HashBlocks(h, b + p) == HashBlocks(Compress(h, b), p)
  {
    hide Compress;
    SplitAt(b, p);
  }

  /** The streaming loop and the padding: the hash over the padded message. */
  method Stream(h: array<Word>, data: seq<byte>)
    requires h.Length == 8 && |data| < 0x1_0000_0000
    modifies h
    ensures h[..] == HashBlocks(old(h[..]), Pad(data, BLOCK, LENGTH, BitCount(|data|, BITS64)))
  {
    hide Pad, HashBlocks, BitCount, Patch, Compress, LastBlocks;
    ghost var p := Pad(data, BLOCK, LENGTH, BitCount(|data|, BITS64));
    ghost var h0 := h[..];
    var buf := new byte[BLOCK];
    var offset, bits := 0, 0;
    assert p[0..] == p;
    NoBits(BITS64);
    while |data| - offset >= BLOCK
      invariant 0 <= offset <= |data| && offset % BLOCK == 0 && bits == BitCount(offset, BITS64)
      invariant |p[offset..]| % BLOCK == 0 && HashBlocks(h[..], p[offset..]) == HashBlocks(h0, p)
    {
      FullBlock(data, BLOCK, LENGTH, BitCount(|data|, BITS64), offset);
      MoreBits(offset, BLOCK, BITS64);
      WholeBlock(buf[..], data[offset..offset + BLOCK]);
      Store(buf, 0, data[offset..offset + BLOCK]);
      NextBlock(h[..], buf[..], p[offset + BLOCK..]);
      Block(buf, h);
      bits := (bits + BLOCK * 8) % BITS64;
      offset := offset + BLOCK;
    }
    var num := |data| - offset;
    MoreBits(offset, num, BITS64);
    bits := (bits + num * 8) % BITS64;
    LastBlocksLeft(data, BLOCK, LENGTH, bits, offset);
    Finish(h, buf, data[offset..], bits);
  }

  /** The last block, or the last two. */
  method Finish(h: array<Word>, buf: array<byte>, rest: seq<byte>, bits: uint64)
    requires h.Length == 8 && buf.Length == BLOCK && |rest| < BLOCK
    modifies h, buf
    ensures |LastBlocks(rest, BLOCK, LENGTH, bits)| % BLOCK == 0
    ensures h[..] == HashBlocks(old(h[..]), LastBlocks(rest, BLOCK, LENGTH, bits))
  {
    hide Patch, LastBlocks, HashBlocks, Compress, Be64, Ended;
    ghost var m := buf[..];
    var num := |rest|;
    Store(buf, 0, rest);
    buf[num] := 0x80;
    if BLOCK - (num + 1) > 0 {
      Store(buf, num + 1, Fill(0, BLOCK - (num + 1)));
    }
    assert buf[..] == Ended(rest, BLOCK) by { PadsBlock(m, rest); }
    if num >= BLOCK - LENGTH {
      ghost var first := buf[..];
      Block(buf, h);
      Store(buf, 0, Fill(0, 128));
      Store(buf, BLOCK - 8, Be64(bits));
      TwoBlocksLeft(rest, BLOCK, LENGTH, bits, 128, first, buf[..]);
      NextBlock(old(h[..]), first, buf[..]);
      OneBlock(h[..], buf[..]);
    } else {
      Store(buf, BLOCK - 8, Be64(bits));
      OneBlockLeft(rest, BLOCK, LENGTH, bits, buf[..]);
      OneBlock(h[..], buf[..]);
    }
    Block(buf, h);
  }

  // ----- entry points

  /** sha512, for every length that its 32-bit argument can express. */
  method Sha512(data: seq<byte>, hash: array<byte>)
    requires |data| < 0x1_0000_0000 && hash.Length >= 64
    modifies hash
    ensures hash[..] == Patch(old(hash[..]), 0, Hash512(data))
  {
    hide Pad, HashBlocks, WordBytes, Patch;
    var h := new Word[8];
    h[0], h[1] := 0x6a09e667f3bcc908, 0xbb67ae8584caa73b;
    h[2], h[3] := 0x3c6ef372fe94f82b, 0xa54ff53a5f1d36f1;
    h[4], h[5] := 0x510e527fade682d1, 0x9b05688c2b3e6c1f;
    h[6], h[7] := 0x1f83d9abfb41bd6b, 0x5be0cd19137e2179;
    assert h[..] == InitialHash512();
    Stream(h, data);
    Store(hash, 0, WordBytes(h[..]));
  }

  /** sha384: the first 48 bytes of the digest, from other initial values. */
  method Sha384(data: seq<byte>, hash: array<byte>)
    requires |data| < 0x1_0000_0000 && hash.Length >= 48
    modifies hash
    ensures hash[..] == Patch(old(hash[..]), 0, Hash384(data))
  {
    hide Pad, HashBlocks, WordBytes, Patch;
    var h := new Word[8];
    h[0], h[1] := 0xcbbb9d5dc1059ed8, 0x629a292a367cd507;
    h[2], h[3] := 0x9159015a3070dd17, 0x152fecd8f70e5939;
    h[4], h[5] := 0x67332667ffc00b31, 0x8eb44a8768581511;
    h[6], h[7] := 0xdb0c2e0d64f98fa7, 0x47b5481dbefa4fa4;
    assert h[..] == InitialHash384();
    Stream(h, data);
    WordBytesPrefix(h[..], 6);
    Store(hash, 0, WordBytes(h[..])[..48]);
  }

  lemma {:induction false} WordBytesPrefix(h: seq<Word>, n: nat)
    requires n <= |h|
    ensures WordBytes(h)[..8 * n] == WordBytes(h[..n])
  {
    hide Be64;
    if n < |h| {
      assert h[..|h| - 1][..n] == h[..n];
      WordBytesPrefix(h[..|h| - 1], n);
    } else {
      assert h[..n] == h;
    }
  }
}
