/** SHA-1 of lib/libtpm/sha.c against FIPS 180-4. */
module Sha1 {
  import opened Bytes
  import opened ShaPadding
  import opened Words32

  /** The bytes of a block, and of the length field at the end of the message. */
  const BLOCK := 64
  const LENGTH := 8

  // ----- FIPS 180-4

  /** Section 4.1.1. */
  function F(t: nat, x: Word, y: Word, z: Word): Word {
    if t < 20 then Ch(x, y, z) else if 40 <= t < 60 then Maj(x, y, z) else Parity(x, y, z)
  }

  /** Section 4.2.1. */
  function K(t: nat): Word {
    if t < 20 then 0x5a827999 else if t < 40 then 0x6ed9eba1 else if t < 60 then 0x8f1bbcdc else 0xca62c1d6
  }

  /** The message schedule, step 1 of section 6.1.2. */
  function W(block: seq<byte>, t: nat): Word
    requires |block| == BLOCK && t < 80
  {
    if t < 16 then WordAt(block, t)
    else RotL(Xor(Xor(Xor(W(block, t - 3), W(block, t - 8)), W(block, t - 14)), W(block, t - 16)), 1)
  }

  /** The working variables. */
  datatype Vars = Vars(a: Word, b: Word, c: Word, d: Word, e: Word)

  /** Step 3 for one t. */
  function Round(v: Vars, t: nat, w: Word): Vars {
    var sum := Add(Add(Add(Add(RotL(v.a, 5), F(t, v.b, v.c, v.d)), v.e), K(t)), w);
    Vars(sum, v.a, RotL(v.b, 30), v.c, v.d)
  }

  function Rounds(v: Vars, block: seq<byte>, t: nat): Vars
    requires |block| == BLOCK && t <= 80
  {
    if t == 0 then v else Round(Rounds(v, block, t - 1), t - 1, W(block, t - 1))
  }

  function VarsOf(h: seq<Word>): Vars
    requires |h| == 5
  {
    Vars(h[0], h[1], h[2], h[3], h[4])
  }

  /** Step 4. */
  function Sums(h: seq<Word>, v: Vars): (r: seq<Word>)
    requires |h| == 5
    ensures |r| == 5
  {
    [Add(h[0], v.a), Add(h[1], v.b), Add(h[2], v.c), Add(h[3], v.d), Add(h[4], v.e)]
  }

  /** The compression of one block. */
  function Compress(h: seq<Word>, block: seq<byte>): (r: seq<Word>)
    requires |h| == 5 && |block| == BLOCK
    ensures |r| == 5
  {
    var all: nat := 80;
    Sums(h, Rounds(VarsOf(h), block, all))
  }

  /** The hash after all blocks of a padded message. */
  function HashBlocks(h: seq<Word>, p: seq<byte>): (r: seq<Word>)
    requires |h| == 5 && |p| % BLOCK == 0
    ensures |r| == 5
    decreases |p|
  {
    if p == [] then h else HashBlocks(Compress(h, p[..BLOCK]), p[BLOCK..])
  }

  /** Section 5.3.1. */
  function InitialHash(): (h: seq<Word>)
    ensures |h| == 5
  {
    [0x67452301, 0xefcdab89, 0x98badcfe, 0x10325476, 0xc3d2e1f0]
  }

  /** SHA-1, section 6.1. */
  function Hash(m: seq<byte>): (s: seq<byte>)
    requires |m| < 0x2000_0000_0000_0000
    ensures |s| == 20
  {
    WordBytes(HashBlocks(InitialHash(), Pad(m, BLOCK, LENGTH, 8 * |m|)))
  }

  // ----- the block function

  function Rol(x: Word, n: nat): Word
    requires n <= 32
  {
    x.RotateLeft(n)
  }

  lemma RolIs(x: Word)
    ensures Rol(x, 1) == RotL(x, 1) && Rol(x, 5) == RotL(x, 5) && Rol(x, 30) == RotL(x, 30)
  {
    hide RotL;
    RotatesLeft(x);
  }

  /** The four kinds of rounds. */
  method Step(t: nat, b: Word, c: Word, d: Word) returns (f: Word, k: Word)
    requires t < 80
    ensures f == F(t, b, c, d) && k == K(t)
  {
    hide Ch, Maj, Parity, ChOf, MajOf;
    ChAndMaj(b, c, d);
    var constants: seq<Word> := [0x5a827999, 0x6ed9eba1, 0x8f1bbcdc, 0xca62c1d6];
    if t <= 19 {
      f, k := ChOf(b, c, d), constants[0];
    } else if t <= 39 {
      f, k := Parity(b, c, d), constants[1];
    } else if t <= 59 {
      f, k := MajOf(b, c, d), constants[2];
    } else {
      f, k := Parity(b, c, d), constants[3];
    }
  }

  /** sha1_block: the compression of the block in `buf`. */
  method Block(buf: array<byte>, h: array<Word>)
    requires buf.Length == BLOCK && h.Length == 5
    modifies h
    ensures h[..] == Compress(old(h[..]), buf[..])
  {
    hide Add, Rol, RotL, F, K, Rounds, W, Compress, Sums;
    var w := Schedule(buf);
    var a, b, c, d, e := h[0], h[1], h[2], h[3], h[4];
    ghost var v, block := VarsOf(h[..]), buf[..];
    NoRounds(v, block);
    var t := 0;
    while t <= 79
      modifies {}
      invariant 0 <= t <= 80 && Vars(a, b, c, d, e) == Rounds(v, block, t)
    {
      var f, k := Step(t, b, c, d);
      RolIs(a);
      RolIs(b);
      assert w[t] == W(block, t);
      OneRound(v, block, t, Vars(a, b, c, d, e), w[t]);
      var sum := Add(Add(Add(Add(Rol(a, 5), f), e), k), w[t]);
      e := d;
      d := c;
      c := Rol(b, 30);
      b := a;
      a := sum;
      t := t + 1;
    }
    assert h[..] == old(h[..]) && buf[..] == block;
    CompressIs(h[..], block, Vars(a, b, c, d, e), t);
    AddSums(h, Vars(a, b, c, d, e));
    assert buf[..] == block;
  }

  lemma NoRounds(v: Vars, block: seq<byte>)
    requires |block| == BLOCK
    ensures Rounds(v, block, 0) == v
  {
  }

  /** One turn of the loop of the block function is one round. */
  lemma OneRound(v: Vars, block: seq<byte>, t: nat, u: Vars, w: Word)
    requires |block| == BLOCK && t < 80 && u == Rounds(v, block, t) && w == W(block, t)
    ensures var sum := Add(Add(Add(Add(RotL(u.a, 5), F(t, u.b, u.c, u.d)), u.e), K(t)), w);
            Rounds(v, block, t + 1) == Vars(sum, u.a, RotL(u.b, 30), u.c, u.d)
  {
    hide W, K, F, Add, RotL;
  }

  lemma CompressIs(h: seq<Word>, block: seq<byte>, last: Vars, all: nat)
    requires |h| == 5 && |block| == BLOCK && all == 80 && last == Rounds(VarsOf(h), block, all)
    ensures Compress(h, block) == Sums(h, last)
  {
    hide Rounds, Sums;
  }

  method AddTo(h: array<Word>, i: nat, x: Word)
    requires i < h.Length
    modifies h
    ensures h[..] == old(h[..])[i := Add(old(h[i]), x)]
  {
    h[i] := Add(h[i], x);
  }

  /** The last step of the block function. */
  method AddSums(h: array<Word>, v: Vars)
    requires h.Length == 5
    modifies h
    ensures h[..] == Sums(old(h[..]), v)
  {
    hide Add, Sums;
    SumsInPlace(h[..], v);
    AddTo(h, 0, v.a);
    AddTo(h, 1, v.b);
    AddTo(h, 2, v.c);
    AddTo(h, 3, v.d);
    AddTo(h, 4, v.e);
  }

  lemma SumsInPlace(h: seq<Word>, v: Vars)
    requires |h| == 5
    ensures Sums(h, v) == h[0 := Add(h[0], v.a)][1 := Add(h[1], v.b)][2 := Add(h[2], v.c)][3 := Add(h[3], v.d)]
                           [4 := Add(h[4], v.e)]
  {
    hide Add;
  }

  /** The message schedule: the 16 words of the block, extended in place. */
  method Schedule(buf: array<byte>) returns (w: array<Word>)
    requires buf.Length == BLOCK
    ensures fresh(w) && w.Length == 80
    ensures forall t :: 0 <= t < 80 ==> w[t] == W(buf[..], t)
  {
    hide W, WordAt, Xor, Rol, RotL;
    w := new Word[80];
    ghost var block := buf[..];
    var t := 0;
    while t <= 15
      invariant 0 <= t <= 16 && forall i :: 0 <= i < t ==> w[i] == W(block, i)
    {
      FirstWords(block, t);
      w[t] := WordAt(buf[..], t);
      t := t + 1;
    }
    while t <= 79
      invariant 16 <= t <= 80 && forall i :: 0 <= i < t ==> w[i] == W(block, i)
    {
      LaterWords(block, t);
      var x := Xor(Xor(Xor(w[t - 3], w[t - 8]), w[t - 14]), w[t - 16]);
      RolIs(x);
      w[t] := Rol(x, 1);
      t := t + 1;
    }
  }

  lemma FirstWords(block: seq<byte>, t: nat)
    requires |block| == BLOCK && t < 16
    ensures W(block, t) == WordAt(block, t)
  {
  }

  lemma LaterWords(block: seq<byte>, t: nat)
    requires |block| == BLOCK && 16 <= t < 80
    ensures W(block, t) == RotL(Xor(Xor(Xor(W(block, t - 3), W(block, t - 8)), W(block, t - 14)), W(block, t - 16)), 1)
  {
    hide WordAt, Xor, RotL;
  }

  // ----- the message

  lemma OneBlock(h: seq<Word>, b: seq<byte>)
    requires |h| == 5 && |b| == BLOCK
    ensures HashBlocks(h, b) == Compress(h, b)
  {
    hide Compress;
    assert b[..BLOCK] == b && b[BLOCK..] == [];
  }

  lemma NextBlock(h: seq<Word>, b: seq<byte>, p: seq<byte>)
    requires |h| == 5 && |b| == BLOCK && |p| % BLOCK == 0
    ensures HashBlocks(h, b + p) == HashBlocks(Compress(h, b), p)
  {
    hide Compress;
    SplitAt(b, p);
  }

  /** The streaming loop and the padding: the hash over the padded message. */
  method Stream(h: array<Word>, data: seq<byte>)
    requires h.Length == 5 && |data| < 0x1_0000_0000
    modifies h
    ensures h[..] == HashBlocks(old(h[..]), Pad(data, BLOCK, LENGTH, BitCount(|data|, BITS64)))
  {
    hide Pad, HashBlocks, BitCount, Patch, Compress, LastBlocks;
    ghost var p := Pad(data, BLOCK, LENGTH, BitCount(|data|, BITS64));
    ghost var h0 := h[..];
    var buf := new byte[BLOCK];
    var offset, bits := 0, 0;
    assert p[0..] == p;
    NoBits(BITS64);
    while |data| - offset >= BLOCK
      invariant 0 <= offset <= |data| && offset % BLOCK == 0 && bits == BitCount(offset, BITS64)
      invariant |p[offset..]| % BLOCK == 0 && HashBlocks(h[..], p[offset..]) == HashBlocks(h0, p)
    {
      FullBlock(data, BLOCK, LENGTH, BitCount(|data|, BITS64), offset);
      MoreBits(offset, BLOCK, BITS64);
      WholeBlock(buf[..], data[offset..offset + BLOCK]);
      Store(buf, 0, data[offset..offset + BLOCK]);
      NextBlock(h[..], buf[..], p[offset + BLOCK..]);
      Block(buf, h);
      bits := (bits + BLOCK * 8) % BITS64;
      offset := offset + BLOCK;
    }
    var num := |data| - offset;
    MoreBits(offset, num, BITS64);
    bits := (bits + num * 8) % BITS64;
    LastBlocksLeft(data, BLOCK, LENGTH, bits, offset);
    Finish(h, buf, data[offset..], bits);
  }

  /** The last block, or the last two. */
  method Finish(h: array<Word>, buf: array<byte>, rest: seq<byte>, bits: uint64)
    requires h.Length == 5 && buf.Length == BLOCK && |rest| < BLOCK
    modifies h, buf
    ensures |LastBlocks(rest, BLOCK, LENGTH, bits)| % BLOCK == 0
    ensures h[..] == HashBlocks(old(h[..]), LastBlocks(rest, BLOCK, LENGTH, bits))
  {
    hide Patch, LastBlocks, HashBlocks, Compress, Be64, Ended;
    ghost var m := buf[..];
    var num := |rest|;
    Store(buf, 0, rest);
    buf[num] := 0x80;
    if BLOCK - (num + 1) > 0 {
      Store(buf, num + 1, Fill(0, BLOCK - (num + 1)));
    }
    assert buf[..] == Ended(rest, BLOCK) by { PadsBlock(m, rest); }
    if num >= BLOCK - LENGTH {
      ghost var first := buf[..];
      Block(buf, h);
      Store(buf, 0, Fill(0, 60));
      Store(buf, BLOCK - 8, Be64(bits));
      TwoBlocksLeft(rest, BLOCK, LENGTH, bits, 60, first, buf[..]);
      NextBlock(old(h[..]), first, buf[..]);
      OneBlock(h[..], buf[..]);
    } else {
      Store(buf, BLOCK - 8, Be64(bits));
      OneBlockLeft(rest, BLOCK, LENGTH, bits, buf[..]);
      OneBlock(h[..], buf[..]);
    }
    Block(buf, h);
  }

  // ----- entry point

  /** sha1, for every length that its 32-bit argument can express. */
  method Sha1(data: seq<byte>, hash: array<byte>)
    requires |data| < 0x1_0000_0000 && hash.Length >= 20
    modifies hash
    ensures hash[..] == Patch(old(hash[..]), 0, Hash(data))
  {
    hide Pad, HashBlocks, WordBytes, Patch;
    var h := new Word[5];
    h[0], h[1], h[2], h[3], h[4] := 0x67452301, 0xefcdab89, 0x98badcfe, 0x10325476, 0xc3d2e1f0;
    assert h[..] == InitialHash();
    Stream(h, data);
    Store(hash, 0, WordBytes(h[..]));
  }
}
