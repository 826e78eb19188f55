/** The IPv4 header checksum (lib/libnet/ipv4.c; section 1 of RFC 1071). */
module Checksum {
  import opened Bytes

  const MAX_WORDS := 65537

  // ----- RFC 1071

  /** One's complement addition: the carry comes back in at the lowest bit. */
  function OnesAdd(a: uint16, b: uint16): uint16 {
    var t := a as int + b as int;
    if t >= 0x1_0000 then t - 0xffff else t
  }

  function OnesSum(words: seq<uint16>): uint16 {
    if words == [] then 0 else OnesAdd(OnesSum(words[..|words| - 1]), words[|words| - 1])
  }

  function Complement(v: uint16): uint16 { 0xffff - v }

  // ----- the firmware

  function Sum(words: seq<uint16>): (s: nat)
    ensures s <= 0xffff * |words|
  {
    if words == [] then 0 else Sum(words[..|words| - 1]) + words[|words| - 1] as int
  }

  /** Two folds and the complement of the low half. */
  function Folded(sum: nat): uint16 {
    var once := sum / 0x1_0000 + sum % 0x1_0000;
    var twice := once + once / 0x1_0000;
    Complement(twice % 0x1_0000)
  }

  /** The one's complement sum is the representative of the plain sum modulo 65535 that is 0 only for 0. */
  function Reduced(sum: nat): uint16 { if sum == 0 then 0 else (sum - 1) % 0xffff + 1 }

  lemma ReducedAdd(sum: nat, w: uint16)
    ensures OnesAdd(Reduced(sum), w) == Reduced(sum + w as int)
  {
    if sum > 0 {
      var r, x := (sum - 1) % 0xffff, (sum - 1) / 0xffff;
      assert sum - 1 == 0xffff * x + r;
    }
  }

  lemma {:induction false} OnesSumIs(words: seq<uint16>)
    ensures OnesSum(words) == Reduced(Sum(words))
  {
    hide OnesAdd, Reduced;
    if words == [] {
      assert Reduced(0) == 0 by { NothingReduced(); }
    } else {
      OnesSumIs(words[..|words| - 1]);
      ReducedAdd(Sum(words[..|words| - 1]), words[|words| - 1]);
    }
  }

  lemma NothingReduced()
    ensures Reduced(0) == 0
  {
  }

  /** Two folds are enough for every sum below 2^32. */
  lemma FoldedIs(sum: nat)
    requires sum < 0x1_0000_0000
    ensures Folded(sum) == Complement(Reduced(sum))
  {
    var hi, lo := sum / 0x1_0000, sum % 0x1_0000;
    assert sum == 0xffff * hi + (hi + lo);
    if sum > 0 {
      var t := hi + lo;
      if t <= 0xffff {
        RemainderOf(sum - 1, hi, t - 1);
      } else {
        RemainderOf(sum - 1, hi + 1, t - 1 - 0xffff);
      }
    }
  }

  lemma RemainderOf(x: int, q: int, r: int)
    requires x == 0xffff * q + r && 0 <= r < 0xffff
    ensures x % 0xffff == r
  {
  }

  /** The checksum is the complemented one's complement sum, for up to 65537 words. */
  lemma FoldsOnesSum(words: seq<uint16>)
    requires |words| <= MAX_WORDS
    ensures Sum(words) < 0x1_0000_0000 && Folded(Sum(words)) == Complement(OnesSum(words))
  {
    OnesSumIs(words);
    FoldedIs(Sum(words));
  }

  /** checksum. */
  method Compute(packet: seq<uint16>) returns (sum: uint16)
    requires |packet| <= MAX_WORDS
    ensures sum == Complement(OnesSum(packet))
  {
    hide Folded;
    var checksum := 0;
    var i, words := 0, |packet|;
    while words > 0
      invariant 0 <= i <= |packet| && words == |packet| - i && checksum == Sum(packet[..i])
    {
      assert packet[..i + 1][..i] == packet[..i];
      checksum := checksum + packet[i] as int;
      i := i + 1;
      words := words - 1;
    }
    assert packet[..i] == packet;
    FoldsOnesSum(packet);
    sum := FoldTwice(checksum);
  }

  method FoldTwice(sum: nat) returns (r: uint16)
    requires sum < 0x1_0000_0000
    ensures r == Folded(sum)
  {
    var checksum := sum / 0x1_0000 + sum % 0x1_0000;
    checksum := checksum + checksum / 0x1_0000;
    r := Complement(checksum % 0x1_0000);
  }

  // ----- a header with its checksum

  lemma {:induction false} SumWithField(words: seq<uint16>, k: nat, v: uint16)
    requires k < |words| && words[k] == 0
    ensures Sum(words[k := v]) == Sum(words) + v as int
  {
    var n := |words| - 1;
    if k < n {
      assert words[k := v][..n] == words[..n][k := v];
      SumWithField(words[..n], k, v);
    } else {
      assert words[k := v][..n] == words[..n];
    }
  }

  /** Storing the checksum in its zeroed field makes the checksum of the whole header 0. */
  lemma StoredChecksumVerifies(words: seq<uint16>, k: nat)
    requires k < |words| <= MAX_WORDS && words[k] == 0
    ensures Complement(OnesSum(words[k := Complement(OnesSum(words))])) == 0
  {
    hide Reduced;
    OnesSumIs(words);
    var c := Complement(OnesSum(words));
    SumWithField(words, k, c);
    OnesSumIs(words[k := c]);
    ReducedFull(Sum(words));
  }

  lemma ReducedFull(sum: nat)
    ensures Reduced(sum + Complement(Reduced(sum)) as int) == 0xffff
  {
    if sum > 0 {
      var r, x := (sum - 1) % 0xffff, (sum - 1) / 0xffff;
      assert sum - 1 == 0xffff * x + r;
      RemainderOf(sum + 0xffff - (r + 1) - 1, x, 0xfffe);
    }
  }
}
