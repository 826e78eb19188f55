/** SHA-256 of lib/libtpm/sha256.c against FIPS 180-4. */
module Sha256 {
  import opened Bytes
  import opened ShaPadding
  import opened Words32

  /** The bytes of a block, and of the length field at the end of the message. */
  const BLOCK := 64
  const LENGTH := 8

  // ----- FIPS 180-4

  /** Section 4.1.2. */
  function BigSigma0(x: Word): Word { Xor(Xor(RotR(x, 2), RotR(x, 13)), RotR(x, 22)) }
  function BigSigma1(x: Word): Word { Xor(Xor(RotR(x, 6), RotR(x, 11)), RotR(x, 25)) }
  function SmallSigma0(x: Word): Word { Xor(Xor(RotR(x, 7), RotR(x, 18)), Shr(x, 3)) }
  function SmallSigma1(x: Word): Word { Xor(Xor(RotR(x, 17), RotR(x, 19)), Shr(x, 10)) }

  /** Section 4.2.2. */
  function K(): (k: seq<Word>)
    ensures |k| == 64
  {
    K0() + K16() + K32() + K48()
  }

  function K0(): (k: seq<Word>)
    ensures |k| == 16
  {
    [
      0x428a2f98, 0x71374491, 0xb5c0fbcf, 0xe9b5dba5,
      0x3956c25b, 0x59f111f1, 0x923f82a4, 0xab1c5ed5,
      0xd807aa98, 0x12835b01, 0x243185be, 0x550c7dc3,
      0x72be5d74, 0x80deb1fe, 0x9bdc06a7, 0xc19bf174
    ]
  }

  function K16(): (k: seq<Word>)
    ensures |k| == 16
  {
    [
      0xe49b69c1, 0xefbe4786, 0x0fc19dc6, 0x240ca1cc,
      0x2de92c6f, 0x4a7484aa, 0x5cb0a9dc, 0x76f988da,
      0x983e5152, 0xa831c66d, 0xb00327c8, 0xbf597fc7,
      0xc6e00bf3, 0xd5a79147, 0x06ca6351, 0x14292967
    ]
  }

  function K32(): (k: seq<Word>)
    ensures |k| == 16
  {
    [
      0x27b70a85, 0x2e1b2138, 0x4d2c6dfc, 0x53380d13,
      0x650a7354, 0x766a0abb, 0x81c2c92e, 0x92722c85,
      0xa2bfe8a1, 0xa81a664b, 0xc24b8b70, 0xc76c51a3,
      0xd192e819, 0xd6990624, 0xf40e3585, 0x106aa070
    ]
  }

  function K48(): (k: seq<Word>)
    ensures |k| == 16
  {
    [
      0x19a4c116, 0x1e376c08, 0x2748774c, 0x34b0bcb5,
      0x391c0cb3, 0x4ed8aa4a, 0x5b9cca4f, 0x682e6ff3,
      0x748f82ee, 0x78a5636f, 0x84c87814, 0x8cc70208,
      0x90befffa, 0xa4506ceb, 0xbef9a3f7, 0xc67178f2
    ]
  }

  /** The message schedule, step 1 of section 6.2.2. */
  function W(block: seq<byte>, t: nat): Word
    requires |block| == BLOCK && t < 64
  {
    if t < 16 then WordAt(block, t)
    else Add(Add(Add(SmallSigma1(W(block, t - 2)), W(block, t - 7)), SmallSigma0(W(block, t - 15))), W(block, t - 16))
  }

  /** The working variables. */
  datatype Vars = Vars(a: Word, b: Word, c: Word, d: Word, e: Word, f: Word, g: Word, h: Word)

  /** Step 3 for one t. */
  function Round(v: Vars, k: Word, w: Word): Vars {
    var t1 := Add(Add(Add(Add(v.h, BigSigma1(v.e)), Ch(v.e, v.f, v.g)), k), w);
    var t2 := Add(BigSigma0(v.a), Maj(v.a, v.b, v.c));
    Vars(Add(t1, t2), v.a, v.b, v.c, Add(v.d, t1), v.e, v.f, v.g)
  }

  function Rounds(v: Vars, block: seq<byte>, t: nat): Vars
    requires |block| == BLOCK && t <= 64
  {
    if t == 0 then v else Round(Rounds(v, block, t - 1), K()[t - 1], W(block, t - 1))
  }

  function VarsOf(h: seq<Word>): Vars
    requires |h| == 8
  {
    Vars(h[0], h[1], h[2], h[3], h[4], h[5], h[6], h[7])
  }

  /** Step 4. */
  function Sums(h: seq<Word>, v: Vars): (r: seq<Word>)
    requires |h| == 8
    ensures |r| == 8
  {
    [Add(h[0], v.a), Add(h[1], v.b), Add(h[2], v.c), Add(h[3], v.d),
     Add(h[4], v.e), Add(h[5], v.f), Add(h[6], v.g), Add(h[7], v.h)]
  }

  /** The compression of one block. */
  function Compress(h: seq<Word>, block: seq<byte>): (r: seq<Word>)
    requires |h| == 8 && |block| == BLOCK
    ensures |r| == 8
  {
    var all: nat := 64;
    Sums(h, Rounds(VarsOf(h), block, all))
  }

  /** The hash after all blocks of a padded message. */
  function HashBlocks(h: seq<Word>, p: seq<byte>): (r: seq<Word>)
    requires |h| == 8 && |p| % BLOCK == 0
    ensures |r| == 8
    decreases |p|
  {
    if p == [] then h else HashBlocks(Compress(h, p[..BLOCK]), p[BLOCK..])
  }

  /** Section 5.3.3. */
  function InitialHash(): (h: seq<Word>)
    ensures |h| == 8
  {
    [0x6a09e667, 0xbb67ae85, 0x3c6ef372, 0xa54ff53a, 0x510e527f, 0x9b05688c, 0x1f83d9ab, 0x5be0cd19]
  }

  /** The digest of a message padded with a given number of bits in the length field. */
  function HashWith(m: seq<byte>, bits: uint64): (s: seq<byte>)
    ensures |s| == 32
  {
    WordBytes(HashBlocks(InitialHash(), Pad(m, BLOCK, LENGTH, bits)))
  }

  /** SHA-256, section 6.2. */
  function Hash(m: seq<byte>): (s: seq<byte>)
    requires |m| < 0x2000_0000_0000_0000
    ensures |s| == 32
  {
    HashWith(m, 8 * |m|)
  }

  /** The digest with the wrapped bit counter of the firmware. */
  function HashWrapped(m: seq<byte>): (s: seq<byte>)
    ensures |s| == 32
  {
    HashWith(m, BitCount(|m|, BITS32))
  }

  // ----- the functions of the firmware

  function Sum0(x: Word): Word { Xor(Xor(x.RotateRight(2), x.RotateRight(13)), x.RotateRight(22)) }
  function Sum1(x: Word): Word { Xor(Xor(x.RotateRight(6), x.RotateRight(11)), x.RotateRight(25)) }
  function Sigma0(x: Word): Word { Xor(Xor(x.RotateRight(7), x.RotateRight(18)), Shr(x, 3)) }
  function Sigma1(x: Word): Word { Xor(Xor(x.RotateRight(17), x.RotateRight(19)), Shr(x, 10)) }

  /** They are the functions of the standard. */
  lemma SigmasAre(x: Word)
    ensures Sum0(x) == BigSigma0(x) && Sum1(x) == BigSigma1(x)
    ensures Sigma0(x) == SmallSigma0(x) && Sigma1(x) == SmallSigma1(x)
  {
    hide Xor, RotR, Shr;
    RotatesRight(x);
  }

  // ----- the block function

  /** The block function: the compression of the block in `buf`. */
  method Block(buf: array<byte>, h: array<Word>)
    requires buf.Length == BLOCK && h.Length == 8
    modifies h
    ensures h[..] == Compress(old(h[..]), buf[..])
  {
    hide Add, Sum0, Sum1, ChOf, MajOf, K, Rounds, W, Compress, Sums;
    var w := Schedule(buf);
    var a, b, c, d := h[0], h[1], h[2], h[3];
    var e, f, g, hh := h[4], h[5], h[6], h[7];
    ghost var v, block := VarsOf(h[..]), buf[..];
    NoRounds(v, block);
    var t := 0;
    while t <= 63
      modifies {}
      invariant 0 <= t <= 64 && Vars(a, b, c, d, e, f, g, hh) == Rounds(v, block, t)
    {
      var t1 := Add(Add(Add(Add(hh, Sum1(e)), ChOf(e, f, g)), K()[t]), w[t]);
      var t2 := Add(Sum0(a), MajOf(a, b, c));
      assert w[t] == W(block, t);
      OneRound(v, block, t, Vars(a, b, c, d, e, f, g, hh), w[t]);
      hh := g;
      g := f;
      f := e;
      e := Add(d, t1);
      d := c;
      c := b;
      b := a;
      a := Add(t1, t2);
      t := t + 1;
    }
    assert h[..] == old(h[..]) && buf[..] == block;
    CompressIs(h[..], block, Vars(a, b, c, d, e, f, g, hh), t);
    AddSums(h, Vars(a, b, c, d, e, f, g, hh));
    assert buf[..] == block;
  }

  lemma NoRounds(v: Vars, block: seq<byte>)
    requires |block| == BLOCK
    ensures Rounds(v, block, 0) == v
  {
  }

  /** One turn of the loop of the block function is one round. */
  lemma OneRound(v: Vars, block: seq<byte>, t: nat, u: Vars, w: Word)
    requires |block| == BLOCK && t < 64 && u == Rounds(v, block, t) && w == W(block, t)
    ensures var t1 := Add(Add(Add(Add(u.h, Sum1(u.e)), ChOf(u.e, u.f, u.g)), K()[t]), w);
            var t2 := Add(Sum0(u.a), MajOf(u.a, u.b, u.c));
            Rounds(v, block, t + 1) == Vars(Add(t1, t2), u.a, u.b, u.c, Add(u.d, t1), u.e, u.f, u.g)
  {
    hide W, K, Add, Sum0, Sum1, ChOf, MajOf, BigSigma0, BigSigma1, Ch, Maj;
    SigmasAre(u.a);
    SigmasAre(u.e);
    ChAndMaj(u.e, u.f, u.g);
    ChAndMaj(u.a, u.b, u.c);
  }

  lemma CompressIs(h: seq<Word>, block: seq<byte>, last: Vars, all: nat)
    requires |h| == 8 && |block| == BLOCK && all == 64 && last == Rounds(VarsOf(h), block, all)
    ensures Compress(h, block) == Sums(h, last)
  {
    hide Rounds, Sums;
  }

  method AddTo(h: array<Word>, i: nat, x: Word)
    requires i < h.Length
    modifies h
    ensures h[..] == old(h[..])[i := Add(old(h[i]), x)]
  {
    h[i] := Add(h[i], x);
  }

  /** The last step of the block function. */
  method AddSums(h: array<Word>, v: Vars)
    requires h.Length == 8
    modifies h
    ensures h[..] == Sums(old(h[..]), v)
  {
    hide Add, Sums;
    SumsInPlace(h[..], v);
    AddTo(h, 0, v.a);
    AddTo(h, 1, v.b);
    AddTo(h, 2, v.c);
    AddTo(h, 3, v.d);
    AddTo(h, 4, v.e);
    AddTo(h, 5, v.f);
    AddTo(h, 6, v.g);
    AddTo(h, 7, v.h);
  }

  lemma SumsInPlace(h: seq<Word>, v: Vars)
    requires |h| == 8
    ensures Sums(h, v) ==
            h[0 := Add(h[0], v.a)][1 := Add(h[1], v.b)][2 := Add(h[2], v.c)][3 := Add(h[3], v.d)]
             [4 := Add(h[4], v.e)][5 := Add(h[5], v.f)][6 := Add(h[6], v.g)][7 := Add(h[7], v.h)]
  {
    hide Add;
  }

  /** The message schedule: the 16 words of the block, extended in place. */
  method Schedule(buf: array<byte>) returns (w: array<Word>)
    requires buf.Length == BLOCK
    ensures fresh(w) && w.Length == 64
    ensures forall t :: 0 <= t < 64 ==> w[t] == W(buf[..], t)
  {
    hide W, WordAt, Add, Sigma0, Sigma1;
    w := new Word[64];
    ghost var block := buf[..];
    var t := 0;
    while t <= 15
      invariant 0 <= t <= 16 && forall i :: 0 <= i < t ==> w[i] == W(block, i)
    {
      FirstWords(block, t);
      w[t] := WordAt(buf[..], t);
      t := t + 1;
    }
    while t <= 63
      invariant 16 <= t <= 64 && forall i :: 0 <= i < t ==> w[i] == W(block, i)
    {
      LaterWords(block, t);
      w[t] := Add(Add(Add(Sigma1(w[t - 2]), w[t - 7]), Sigma0(w[t - 15])), w[t - 16]);
      t := t + 1;
    }
  }

  lemma FirstWords(block: seq<byte>, t: nat)
    requires |block| == BLOCK && t < 16
    ensures W(block, t) == WordAt(block, t)
  {
  }

  lemma LaterWords(block: seq<byte>, t: nat)
    requires |block| == BLOCK && 16 <= t < 64
    ensures W(block, t) ==
            Add(Add(Add(Sigma1(W(block, t - 2)), W(block, t - 7)), Sigma0(W(block, t - 15))), W(block, t - 16))
  {
    hide SmallSigma0, SmallSigma1, Sigma0, Sigma1, Sum0, Sum1, BigSigma0, BigSigma1, WordAt, Add;
    SigmasAre(W(block, t - 2));
    SigmasAre(W(block, t - 15));
  }

  // ----- the message

  lemma OneBlock(h: seq<Word>, b: seq<byte>)
    requires |h| == 8 && |b| == BLOCK
    ensures HashBlocks(h, b) == Compress(h, b)
  {
    hide Compress;
    assert b[..BLOCK] == b && b[BLOCK..] == [];
  }

  lemma NextBlock(h: seq<Word>, b: seq<byte>, p: seq<byte>)
    requires |h| == 8 && |b| == BLOCK && |p| % BLOCK == 0
    ensures HashBlocks(h, b + p) == HashBlocks(Compress(h, b), p)
  {
    hide Compress;
    SplitAt(b, p);
  }

  /** The streaming loop and the padding: the hash over the padded message. */
  method Stream(h: array<Word>, data: seq<byte>)
    requires h.Length == 8 && |data| < 0x1_0000_0000
    modifies h
    ensures h[..] == HashBlocks(old(h[..]), Pad(data, BLOCK, LENGTH, BitCount(|data|, BITS32)))
  {
    hide Pad, HashBlocks, BitCount, Patch, Compress, LastBlocks;
    ghost var p := Pad(data, BLOCK, LENGTH, BitCount(|data|, BITS32));
    ghost var h0 := h[..];
    var buf := new byte[BLOCK];
    var offset, bits := 0, 0;
    assert p[0..] == p;
    NoBits(BITS32);
    while |data| - offset >= BLOCK
      invariant 0 <= offset <= |data| && offset % BLOCK == 0 && bits == BitCount(offset, BITS32)
      invariant |p[offset..]| % BLOCK == 0 && HashBlocks(h[..], p[offset..]) == HashBlocks(h0, p)
    {
      FullBlock(data, BLOCK, LENGTH, BitCount(|data|, BITS32), offset);
      MoreBits(offset, BLOCK, BITS32);
      WholeBlock(buf[..], data[offset..offset + BLOCK]);
      Store(buf, 0, data[offset..offset + BLOCK]);
      NextBlock(h[..], buf[..], p[offset + BLOCK..]);
      Block(buf, h);
      bits := (bits + BLOCK * 8) % BITS32;
      offset := offset + BLOCK;
    }
    var num := |data| - offset;
    MoreBits(offset, num, BITS32);
    bits := (bits + num * 8) % BITS32;
    LastBlocksLeft(data, BLOCK, LENGTH, bits, offset);
    Finish(h, buf, data[offset..], bits);
  }

  /** The last block, or the last two. */
  method Finish(h: array<Word>, buf: array<byte>, rest: seq<byte>, bits: uint64)
    requires h.Length == 8 && buf.Length == BLOCK && |rest| < BLOCK
    modifies h, buf
    ensures |LastBlocks(rest, BLOCK, LENGTH, bits)| % BLOCK == 0
    ensures h[..] == HashBlocks(old(h[..]), LastBlocks(rest, BLOCK, LENGTH, bits))
  {
    hide Patch, LastBlocks, HashBlocks, Compress, Be64, Ended;
    ghost var m := buf[..];
    var num := |rest|;
    Store(buf, 0, rest);
    buf[num] := 0x80;
    if BLOCK - (num + 1) > 0 {
      Store(buf, num + 1, Fill(0, BLOCK - (num + 1)));
    }
    assert buf[..] == Ended(rest, BLOCK) by { PadsBlock(m, rest); }
    if num >= BLOCK - LENGTH {
      ghost var first := buf[..];
      Block(buf, h);
      Store(buf, 0, Fill(0, 60));
      Store(buf, BLOCK - 8, Be64(bits));
      TwoBlocksLeft(rest, BLOCK, LENGTH, bits, 60, first, buf[..]);
      NextBlock(old(h[..]), first, buf[..]);
      OneBlock(h[..], buf[..]);
    } else {
      Store(buf, BLOCK - 8, Be64(bits));
      OneBlockLeft(rest, BLOCK, LENGTH, bits, buf[..]);
      OneBlock(h[..], buf[..]);
    }
    Block(buf, h);
  }

  // ----- the bit counter

  /** The counter is the message length of the standard exactly below 2^29 bytes. */
  lemma CounterIsLength(data: seq<byte>)
    requires |data| < 0x1_0000_0000
    ensures Pad(data, BLOCK, LENGTH, BitCount(|data|, BITS32)) == Pad(data, BLOCK, LENGTH, 8 * |data|)
            <==> |data| < 0x2000_0000
  {
    hide Be64;
    if |data| >= 0x2000_0000 {
      var p, q := Pad(data, BLOCK, LENGTH, BitCount(|data|, BITS32)), Pad(data, BLOCK, LENGTH, 8 * |data|);
      assert p[|p| - 8..] == Be64(BitCount(|data|, BITS32)) && q[|q| - 8..] == Be64(8 * |data|);
      Be64IsInjective(BitCount(|data|, BITS32), 8 * |data|);
    }
  }

  // ----- entry point

  /** sha256. For every length that a 32-bit argument can express the digest is the hash over the message
      padded with the wrapped bit counter; below 2^29 bytes that is SHA-256. */
  method Sha256(data: seq<byte>, hash: array<byte>)
    requires |data| < 0x1_0000_0000 && hash.Length >= 32
    modifies hash
    ensures hash[..] == Patch(old(hash[..]), 0, HashWrapped(data))
    ensures |data| < 0x2000_0000 ==> hash[..] == Patch(old(hash[..]), 0, Hash(data))
  {
    hide Pad, HashBlocks, WordBytes, Patch, BitCount;
    var h := new Word[8];
    h[0], h[1], h[2], h[3] := 0x6a09e667, 0xbb67ae85, 0x3c6ef372, 0xa54ff53a;
    h[4], h[5], h[6], h[7] := 0x510e527f, 0x9b05688c, 0x1f83d9ab, 0x5be0cd19;
    assert h[..] == InitialHash();
    Stream(h, data);
    Store(hash, 0, WordBytes(h[..]));
    CounterIsLength(data);
  }
}
