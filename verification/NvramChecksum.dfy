/** What the header checksum of lib/libnvram/nvram.c is: a one's complement sum that may lose its last carry. */
module NvramChecksum {
  import opened Bytes
  import opened NvramLayout

  /** Addition of bytes with end-around carry. */
  function EndAround(a: byte, b: byte): byte {
    var sum: int := a + b;
    if sum > 0xff then sum - 0xff else sum
  }

  function OnesSum(s: seq<byte>): byte {
    if s == [] then 0 else EndAround(s[0], OnesSum(s[1..]))
  }

  function Total(s: seq<byte>): nat {
    if s == [] then 0 else s[0] as int + Total(s[1..])
  }

  /** The header without its checksum byte. */
  function Others(h: seq<byte>): (s: seq<byte>)
    requires |h| == HEADER
    ensures |s| == HEADER - 1
  {
    [h[0]] + h[2..]
  }

  /** The end-around sum is the sum modulo 255, with 0 for nothing but zeros. */
  lemma {:induction false} OnesSumIs(s: seq<byte>)
    ensures OnesSum(s) == if Total(s) == 0 then 0 else (Total(s) - 1) % 255 + 1
    ensures Total(s) <= 255 * |s|
  {
    if s != [] { OnesSumIs(s[1..]); }
  }

  predicate Lost(t: nat) { t / 0x100 + t % 0x100 > 0xff }

  /** Folding a sum once leaves a carry that the 8-bit result does not hold. */
  predicate CarryLost(h: seq<byte>)
    requires |h| == HEADER
  {
    Lost(Total(Others(h)))
  }

  lemma {:induction false} SumIsTotal(s: seq<byte>, i: nat)
    requires i <= |s|
    ensures Sum(s, i) == Total(s[i..])
    decreases |s| - i
  {
    if i < |s| {
      assert s[i..][1..] == s[i + 1..];
      SumIsTotal(s, i + 1);
    }
  }

  lemma FoldedTotal(h: seq<byte>)
    requires |h| == HEADER
    ensures var t := Total(Others(h)); t <= 255 * 15 && Checksum(h) == (t / 0x100 + t % 0x100) % 0x100
  {
    SumIsTotal(h, 2);
    OnesSumIs(Others(h));
    assert Others(h)[1..] == h[2..];
  }

  /** The checksum of a header is the one's complement sum of its other 15 bytes, exactly if no carry is lost;
      otherwise it is one less. */
  lemma ChecksumIsOnesSum(h: seq<byte>)
    requires |h| == HEADER
    ensures OnesSum(Others(h)) > 0 || !CarryLost(h)
    ensures Checksum(h) == if CarryLost(h) then OnesSum(Others(h)) - 1 else OnesSum(Others(h))
  {
    hide Checksum, OnesSum, Others;
    FoldedTotal(h);
    OnesSumIs(Others(h));
  }

  lemma {:induction false} TotalChanges(s: seq<byte>, k: nat, v: byte)
    requires k < |s|
    ensures Total(s[k := v]) == Total(s) - s[k] as int + v as int
    decreases k
  {
    if k == 0 {
      assert s[k := v][1..] == s[1..];
    } else {
      assert s[k := v][1..] == s[1..][k - 1 := v];
      TotalChanges(s[1..], k - 1, v);
    }
  }

  lemma OthersChange(h: seq<byte>, k: nat, v: byte)
    requires |h| == HEADER && k < HEADER && k != 1
    ensures Total(Others(h[k := v])) == Total(Others(h)) - h[k] as int + v as int
  {
    if k == 0 {
      assert Others(h[k := v]) == Others(h)[0 := v];
      TotalChanges(Others(h), 0, v);
    } else {
      assert Others(h[k := v]) == Others(h)[k - 1 := v];
      TotalChanges(Others(h), k - 1, v);
    }
  }

  /** Changing one byte of a header that is not zero otherwise goes unseen exactly if it changes 0 to 0xff or
      back, as long as the same carry is lost; and if not, only a change by one more can go unseen. */
  lemma ChangeIsSeen(h: seq<byte>, k: nat, v: byte)
    requires |h| == HEADER && k < HEADER && k != 1 && v != h[k]
    requires Total(Others(h)) > h[k] as int
    ensures CarryLost(h) == CarryLost(h[k := v]) ==>
              (Checksum(h[k := v]) == Checksum(h) <==> {v, h[k]} == {0, 0xff})
    ensures CarryLost(h) != CarryLost(h[k := v]) && Checksum(h[k := v]) == Checksum(h) ==>
              (v as int - h[k] as int) % 255 in {1, 254}
  {
    hide Checksum, Others;
    FoldedTotal(h);
    FoldedTotal(h[k := v]);
    OthersChange(h, k, v);
    var d := v as int - h[k] as int;
    assert -255 <= d <= 255 && d != 0;
    FoldsDiffer(Total(Others(h)), Total(Others(h[k := v])), d);
    assert {v, h[k]} == {0, 0xff} <==> d == 255 || d == -255;
  }

  lemma FoldsDiffer(t: nat, t1: nat, d: int)
    requires 0 < t <= 255 * 15 && 0 < t1 <= 255 * 15 && t1 == t + d && -255 <= d <= 255 && d != 0
    ensures var f, f1 := (t / 0x100 + t % 0x100) % 0x100, (t1 / 0x100 + t1 % 0x100) % 0x100;
            && (Lost(t) == Lost(t1) ==> (f == f1 <==> d == 255 || d == -255))
            && (Lost(t) != Lost(t1) && f == f1 ==> d % 255 in {1, 254})
  {
    hide Lost;
    FoldIs(t);
    FoldIs(t1);
    Shifted(t - 1, d);
  }

  lemma Shifted(u: nat, d: int)
    requires -255 <= d <= 255 && u + d >= 0
    ensures var r := u % 255 + d;
            (u + d) % 255 == if r < 0 then r + 255 else if r < 255 then r else if r < 510 then r - 255 else r - 510
  {
  }

  lemma FoldIs(t: nat)
    requires 0 < t <= 255 * 15
    ensures (t / 0x100 + t % 0x100) % 0x100 == (t - 1) % 255 + (if Lost(t) then 0 else 1)
  {
  }

  /** The header of "common" that reset_nvram writes: the byte the operating system reads there. */
  lemma CommonChecksum()
    ensures Checksum([0x70, 0, 0x01, 0x00, 0x63, 0x6f, 0x6d, 0x6d, 0x6f, 0x6e, 0, 0, 0, 0, 0, 0]) == 0xfc
  {
    var h: seq<byte> := [0x70, 0, 0x01, 0x00, 0x63, 0x6f, 0x6d, 0x6d, 0x6f, 0x6e, 0, 0, 0, 0, 0, 0];
    assert Sum(h, 12) == 0;
    assert Sum(h, 8) == 0x6f + 0x6e;
    assert Sum(h, 4) == 0x63 + 0x6f + 0x6d + 0x6d + 0x6f + 0x6e;
  }
}
