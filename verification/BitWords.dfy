/** Bits packed into 64-bit words (slof/allocator.c). */
module BitWords {

  type Word = bv64

  const WORD_BITS := 64

  function Bit(k: nat): Word
    requires k < WORD_BITS
  {
    (1 as bv64) << k
  }

  function SetMask(w: Word, a: Word): Word { w | a }
  function ClearMask(w: Word, a: Word): Word { w & !a }
  function Masked(w: Word, a: Word): Word { w & a }
  predicate Meets(w: Word, a: Word) { Masked(w, a) != 0 }

  /** The bits of an array of words, lowest bit of the first word first. */
  function Bits(words: seq<Word>): (b: seq<bool>)
    ensures |b| == WORD_BITS * |words|
    ensures forall n :: 0 <= n < |b| ==> b[n] == Meets(words[n / WORD_BITS], Bit(n % WORD_BITS))
  {
    seq(WORD_BITS * |words|, n requires 0 <= n < WORD_BITS * |words| => Meets(words[n / WORD_BITS], Bit(n % WORD_BITS)))
  }

  lemma ShiftBySix(k: nat)
    requires k < WORD_BITS
    ensures Bit(k) == (1 as bv64) << (k as bv6)
  {
  }

  lemma SixBits(k: nat)
    requires k < WORD_BITS
    ensures (k as bv6) as int == k
  {
  }

  lemma ShiftsDiffer(k: bv6, j: bv6)
    ensures (1 as bv64) << k != 0 && (k != j ==> ((1 as bv64) << k) & ((1 as bv64) << j) == 0)
  {
  }

  /** Different bits do not meet, and no bit is shifted out. */
  lemma BitsDiffer(k: nat, j: nat)
    requires k < WORD_BITS && j < WORD_BITS
    ensures Bit(k) != 0 && (k != j ==> Bit(k) & Bit(j) == 0)
  {
    hide Bit;
    ShiftBySix(k);
    ShiftBySix(j);
    SixBits(k);
    SixBits(j);
    ShiftsDiffer(k as bv6, j as bv6);
  }

  lemma SameMask(w: Word, a: Word)
    requires a != 0
    ensures Meets(SetMask(w, a), a) && !Meets(ClearMask(w, a), a)
  {
  }

  lemma SetApart(w: Word, a: Word, b: Word)
    requires a & b == 0
    ensures (w | a) & b == w & b
  {
  }

  lemma ClearedApart(w: Word, a: Word, b: Word)
    requires a & b == 0
    ensures (w & !a) & b == w & b
  {
  }

  lemma SetKeeps(w: Word, a: Word, b: Word)
    requires a & b == 0
    ensures Masked(SetMask(w, a), b) == Masked(w, b)
  {
    SetApart(w, a, b);
  }

  lemma ClearKeeps(w: Word, a: Word, b: Word)
    requires a & b == 0
    ensures Masked(ClearMask(w, a), b) == Masked(w, b)
  {
    ClearedApart(w, a, b);
  }

  lemma OtherMask(w: Word, a: Word, b: Word)
    requires a & b == 0
    ensures Meets(SetMask(w, a), b) == Meets(w, b) && Meets(ClearMask(w, a), b) == Meets(w, b)
  {
    hide Masked, SetMask, ClearMask;
    SetKeeps(w, a, b);
    ClearKeeps(w, a, b);
  }

  /** Setting or clearing one bit of a word changes that bit only. */
  lemma OneBit(w: Word, k: nat, j: nat)
    requires k < WORD_BITS && j < WORD_BITS
    ensures Meets(SetMask(w, Bit(k)), Bit(j)) == (j == k || Meets(w, Bit(j)))
    ensures Meets(ClearMask(w, Bit(k)), Bit(j)) == (j != k && Meets(w, Bit(j)))
  {
    hide Bit, Meets, SetMask, ClearMask;
    BitsDiffer(k, j);
    if j == k {
      SameMask(w, Bit(k));
    } else {
      OtherMask(w, Bit(k), Bit(j));
    }
  }

  lemma {:induction false} AllOnes(words: seq<Word>)
    requires forall i :: 0 <= i < |words| ==> words[i] == 0xffff_ffff_ffff_ffff
    ensures Bits(words) == seq(WORD_BITS * |words|, _ => true)
  {
    hide Bit, Meets;
    forall n | 0 <= n < WORD_BITS * |words| ensures Bits(words)[n] {
      BitsDiffer(n % WORD_BITS, n % WORD_BITS);
      OnesMask(Bit(n % WORD_BITS));
      assert words[n / WORD_BITS] == 0xffff_ffff_ffff_ffff;
    }
  }

  lemma OnesMask(a: Word)
    requires a != 0
    ensures Meets(0xffff_ffff_ffff_ffff, a)
  {
  }

  method TestBit(bmw: array<Word>, n: nat) returns (isSet: bool)
    requires n < WORD_BITS * bmw.Length
    ensures isSet == Bits(bmw[..])[n]
  {
    hide Bit, Meets;
    isSet := Meets(bmw[n / WORD_BITS], Bit(n % WORD_BITS));
  }

  method SetBit(bmw: array<Word>, n: nat)
    requires n < WORD_BITS * bmw.Length
    modifies bmw
    ensures Bits(bmw[..]) == Bits(old(bmw[..]))[n := true]
  {
    hide Bit, Bits, SetMask, ClearMask, Meets;
    ghost var m := bmw[..];
    bmw[n / WORD_BITS] := SetMask(bmw[n / WORD_BITS], Bit(n % WORD_BITS));
    WordChanged(m, bmw[..], n, true);
  }

  method ClearBit(bmw: array<Word>, n: nat)
    requires n < WORD_BITS * bmw.Length
    modifies bmw
    ensures Bits(bmw[..]) == Bits(old(bmw[..]))[n := false]
  {
    hide Bit, Bits, SetMask, ClearMask, Meets;
    ghost var m := bmw[..];
    bmw[n / WORD_BITS] := ClearMask(bmw[n / WORD_BITS], Bit(n % WORD_BITS));
    WordChanged(m, bmw[..], n, false);
  }

  lemma WordChanged(m: seq<Word>, m1: seq<Word>, n: nat, v: bool)
    requires n < WORD_BITS * |m| && |m| == |m1|
    requires var i, mask := n / WORD_BITS, Bit(n % WORD_BITS);
             m1 == m[i := if v then SetMask(m[i], mask) else ClearMask(m[i], mask)]
    ensures Bits(m1) == Bits(m)[n := v]
  {
    hide Bit, Meets, SetMask, ClearMask;
    var i := n / WORD_BITS;
    forall j | 0 <= j < WORD_BITS * |m| ensures Bits(m1)[j] == Bits(m)[n := v][j] {
      if j / WORD_BITS == i {
        OneBit(m[i], n % WORD_BITS, j % WORD_BITS);
        assert j == n <==> j % WORD_BITS == n % WORD_BITS;
      } else {
        assert m1[j / WORD_BITS] == m[j / WORD_BITS];
      }
    }
  }
}
