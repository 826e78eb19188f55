/** Machine integers, byte order and memory copies, shared by all the models.
    The firmware runs on big-endian PPC64 with an unsigned `char`. */
module Bytes {

  type byte = x: int | 0 <= x < 0x100
  type uint16 = x: int | 0 <= x < 0x1_0000
  type uint32 = x: int | 0 <= x < 0x1_0000_0000

  datatype Option<+T> = None | Some(value: T)

  function Le16(v: uint16): (s: seq<byte>)
    ensures |s| == 2 && FromLe16(s) == v
  {
    [v % 0x100, v / 0x100]
  }

  function FromLe16(s: seq<byte>): uint16
    requires |s| == 2
  {
    var lo: int, hi: int := s[0], s[1];
    lo + 0x100 * hi
  }

  function Le32(v: uint32): (s: seq<byte>)
    ensures |s| == 4 && FromLe32(s) == v
  {
    Le16(v % 0x1_0000) + Le16(v / 0x1_0000)
  }

  function FromLe32(s: seq<byte>): uint32
    requires |s| == 4
  {
    var lo: int, hi: int := FromLe16(s[..2]), FromLe16(s[2..]);
    lo + 0x1_0000 * hi
  }

  function Be16(v: uint16): (s: seq<byte>)
    ensures |s| == 2 && FromBe16(s) == v
  {
    [v / 0x100, v % 0x100]
  }

  function FromBe16(s: seq<byte>): uint16
    requires |s| == 2
  {
    var hi: int, lo: int := s[0], s[1];
    0x100 * hi + lo
  }

  function Be32(v: uint32): (s: seq<byte>)
    ensures |s| == 4 && FromBe32(s) == v
  {
    Be16(v / 0x1_0000) + Be16(v % 0x1_0000)
  }

  function FromBe32(s: seq<byte>): uint32
    requires |s| == 4
  {
    var hi: int, lo: int := FromBe16(s[..2]), FromBe16(s[2..]);
    0x1_0000 * hi + lo
  }

  /** The byte orders. */
  lemma ByteOrders(v: uint32)
    ensures var s := Le32(v);
            v == s[0] as int + 0x100 * (s[1] as int) + 0x1_0000 * (s[2] as int) + 0x100_0000 * (s[3] as int)
    ensures var s := Be32(v);
            v == 0x100_0000 * (s[0] as int) + 0x1_0000 * (s[1] as int) + 0x100 * (s[2] as int) + s[3] as int
  {
  }

  function Fill(v: byte, n: nat): (s: seq<byte>)
    ensures |s| == n
  {
    seq(n, _ => v)
  }

  /** `mem` after `s` was copied to offset `at`. */
  function Patch(mem: seq<byte>, at: nat, s: seq<byte>): (r: seq<byte>)
    requires at + |s| <= |mem|
    ensures |r| == |mem|
    ensures forall i :: 0 <= i < |mem| ==> r[i] == if at <= i < at + |s| then s[i - at] else mem[i]
  {
    mem[..at] + s + mem[at + |s|..]
  }

  lemma PatchAppend(mem: seq<byte>, at: nat, s: seq<byte>, t: seq<byte>)
    requires at + |s| + |t| <= |mem|
    ensures Patch(Patch(mem, at, s), at + |s|, t) == Patch(mem, at, s + t)
  {
  }

  lemma PatchedPrefix(mem: seq<byte>, at: nat, s: seq<byte>)
    requires at + |s| <= |mem|
    ensures Patch(mem, at, s)[..at + |s|] == mem[..at] + s
  {
  }

  lemma SplitAt<T>(a: seq<T>, b: seq<T>)
    ensures (a + b)[..|a|] == a && (a + b)[|a|..] == b
  {
  }

  /** A stretch of memory that holds `a + b`. */
  lemma SplitWindow(mem: seq<byte>, off: nat, a: seq<byte>, b: seq<byte>, n: nat)
    requires off + |a| + |b| <= |mem| && mem[off..off + |a| + |b|] == a + b && n <= |a|
    ensures mem[off..off + n] == a[..n]
    ensures mem[off + |a|..off + |a| + |b|] == b
  {
    var w := mem[off..off + |a| + |b|];
    assert mem[off..off + n] == w[..n];
    assert mem[off + |a|..off + |a| + |b|] == w[|a|..];
  }

  /** memcpy of `s` to offset `at` of `a`. */
  method Store(a: array<byte>, at: nat, s: seq<byte>)
    requires at + |s| <= a.Length
    modifies a
    ensures a[..] == Patch(old(a[..]), at, s)
  {
    forall i | 0 <= i < |s| {
      a[at + i] := s[i];
    }
  }
}
