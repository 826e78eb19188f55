/** The text form of an IPv6 address as lib/libnet/ipv6.c prints and parses it, over values. */
module Ipv6Text {
  import opened Bytes

  /** The eight 16-bit groups of an address. */
  type Groups = seq<uint16>

  predicate IsAddress(a: seq<byte>) { |a| == 16 }

  function GroupsOf(a: seq<byte>): (g: Groups)
    requires IsAddress(a)
    ensures |g| == 8
    ensures forall i :: 0 <= i < 8 ==> Be16(g[i]) == a[2 * i..2 * i + 2]
  {
    seq(8, i requires 0 <= i < 8 => FromBe16(a[2 * i..2 * i + 2]))
  }

  // ----- hexadecimal numerals

  function Digit(d: nat): char
    requires d < 16
  {
    if d < 10 then '0' + d as char else 'a' + (d - 10) as char
  }

  /** "%x" of a byte. */
  function Hex(b: byte): string { if b < 16 then [Digit(b)] else [Digit(b / 16), Digit(b % 16)] }

  /** "%02x" of a byte. */
  function Hex2(b: byte): string { [Digit(b / 16), Digit(b % 16)] }

  /** A group as ipv6_to_str prints it. */
  function Text(v: uint16): string {
    if v / 0x100 != 0 then Hex(v / 0x100) + Hex2(v % 0x100)
    else if v % 0x100 != 0 then Hex(v % 0x100)
    else "0"
  }

  /** Groups separated by colons. */
  function Join(g: Groups): string {
    if g == [] then "" else if |g| == 1 then Text(g[0]) else Text(g[0]) + ":" + Join(g[1..])
  }

  /** isxdigit. */
  predicate IsHex(c: char) { '0' <= c <= '9' || 'a' <= c <= 'f' || 'A' <= c <= 'F' }

  function DigitValue(c: char): nat
    requires IsHex(c)
  {
    if c <= '9' then (c - '0') as nat else if c <= 'F' then (c - 'A') as nat + 10 else (c - 'a') as nat + 10
  }

  /** The hexadecimal digits at the front of `s`, behind `acc`. */
  function HexDigits(s: string, acc: nat): nat {
    if s == "" || !IsHex(s[0]) then acc else HexDigits(s[1..], 16 * acc + DigitValue(s[0]))
  }

  /** strtol with base 16, for a string that starts with a digit or is empty. */
  function Strtol16(s: string): nat {
    if |s| >= 2 && s[0] == '0' && s[1] == 'x' then HexDigits(s[2..], 0) else HexDigits(s, 0)
  }

  predicate AllHex(s: string) { forall i :: 0 <= i < |s| ==> IsHex(s[i]) }

  lemma DigitReads(d: nat)
    requires d < 16
    ensures IsHex(Digit(d)) && DigitValue(Digit(d)) == d && (Digit(d) == '0' <==> d == 0)
  {
  }

  lemma HexStep(d: nat, rest: string, acc: nat)
    requires d < 16
    ensures HexDigits([Digit(d)] + rest, acc) == HexDigits(rest, 16 * acc + d)
  {
    DigitReads(d);
    assert ([Digit(d)] + rest)[1..] == rest;
  }

  lemma Hex2Reads(b: byte, acc: nat)
    ensures HexDigits(Hex2(b), acc) == 0x100 * acc + b && AllHex(Hex2(b))
  {
    DigitReads(b / 16);
    DigitReads(b % 16);
    assert Hex2(b) == [Digit(b / 16)] + ([Digit(b % 16)] + "");
    HexStep(b / 16, [Digit(b % 16)] + "", acc);
    HexStep(b % 16, "", 16 * acc + b / 16);
  }

  lemma HexReads(b: byte, rest: string)
    ensures HexDigits(Hex(b) + rest, 0) == HexDigits(rest, b) && AllHex(Hex(b))
    ensures 1 <= |Hex(b)| <= 2 && (Hex(b)[0] == '0' <==> b == 0)
  {
    DigitReads(b / 16);
    DigitReads(b % 16);
    if b < 16 {
      HexStep(b, rest, 0);
    } else {
      assert Hex(b) + rest == [Digit(b / 16)] + ([Digit(b % 16)] + rest);
      HexStep(b / 16, [Digit(b % 16)] + rest, 0);
      HexStep(b % 16, rest, b / 16);
    }
  }

  /** The text of a group: one to four digits, no leading zero, and it reads back as the group. */
  lemma TextShape(v: uint16)
    ensures 1 <= |Text(v)| <= 4 && AllHex(Text(v))
    ensures Text(v)[0] == '0' <==> v == 0
    ensures v == 0 ==> Text(v) == "0"
    ensures Strtol16(Text(v)) == v
  {
    var hi, lo := v / 0x100, v % 0x100;
    assert !IsHex('x');
    if hi != 0 {
      HexReads(hi, Hex2(lo));
      Hex2Reads(lo, hi);
    } else if lo != 0 {
      HexReads(lo, "");
      assert Hex(lo) + "" == Hex(lo);
    } else {
      HexReads(0, "");
      assert Hex(0) + "" == "0";
    }
  }

  // ----- the printed form

  /** The first pair of zero groups from `k` on that has another group behind it. */
  function ZeroPair(g: Groups, k: nat): (r: Option<nat>)
    requires |g| == 8
    ensures r.Some? ==> k <= r.value <= 5 && g[r.value] == 0 && g[r.value + 1] == 0
    decreases 8 - k
  {
    if k > 5 then None
    else if g[k] == 0 && g[k + 1] == 0 then Some(k)
    else ZeroPair(g, k + 1)
  }

  /** The end of the zero groups from `j` on; the last group always stays. */
  function ZeroEnd(g: Groups, j: nat): (r: nat)
    requires |g| == 8 && j <= 7
    ensures j <= r <= 7 && forall i :: j <= i < r ==> g[i] == 0
    decreases 7 - j
  {
    if j < 7 && g[j] == 0 then ZeroEnd(g, j + 1) else j
  }

  /** What ipv6_to_str leaves in its buffer. */
  function Print(g: Groups): string
    requires |g| == 8
  {
    match ZeroPair(g, 0)
    case None => Join(g)
    case Some(i) =>
      var j := ZeroEnd(g, i + 2);
      if i == 0 && Join(g[j..]) == "0" then "::" else Join(g[..i]) + "::" + Join(g[j..])
  }

  // ----- parsing

  /** The first position of `c` at or behind `i`, |s| if there is none. */
  function Find(s: string, c: char, i: nat): (p: nat)
    requires i <= |s|
    ensures i <= p <= |s| && (p < |s| ==> s[p] == c) && forall k :: i <= k < p ==> s[k] != c
    decreases |s| - i
  {
    if i == |s| || s[i] == c then i else Find(s, c, i + 1)
  }

  predicate Occurs(s: string, t: string, k: nat) { k + |t| <= |s| && s[k..k + |t|] == t }

  /** strstr: the first position of `t` at or behind `i`, |s| if there is none. */
  function FindStr(s: string, t: string, i: nat): (p: nat)
    requires i <= |s| && t != ""
    ensures i <= p <= |s|
    ensures p < |s| ==> Occurs(s, t, p)
    ensures forall k :: i <= k < p ==> !Occurs(s, t, k)
    decreases |s| - i
  {
    if i == |s| || Occurs(s, t, i) then i else FindStr(s, t, i + 1)
  }

  /** The two counters of check_colons: a colon followed by another one takes 1 from `col` and adds 1 to
      `dcol`, every other colon adds 1 to `col`. */
  function Colons(s: string): (int, nat) {
    if s == "" then (0, 0)
    else
      var (col, dcol) := Colons(s[1..]);
      if s[0] != ':' then (col, dcol)
      else if |s| > 1 && s[1] == ':' then (col - 1, dcol + 1)
      else (col + 1, dcol)
  }

  /** check_colons. */
  function CheckColons(s: string): int {
    var (col, dcol) := Colons(s);
    if dcol > 1 || (dcol == 1 && col > 5) || (dcol == 0 && col != 7) then 0 else col + dcol
  }

  datatype Parsed = Parsed(bytes: seq<byte>, ok: bool)

  /** The length of the next group, None if ipv6str_to_bytes rejects it. The distance to the colon is cut
      to 16 bits. */
  function GroupLength(s: string): (r: Option<nat>)
    ensures r.Some? ==> r.value <= 4 && r.value <= |s|
  {
    var p := Find(s, ':', 0);
    if p < |s| then (if p % 0x1_0000 > 4 then None else Some(p % 0x1_0000))
    else Some(if |s| < 4 then |s| else 4)
  }

  function SkipColon(s: string): string { if s != "" && s[0] == ':' then s[1..] else s }

  /** `m` times 16 to the power `n`. */
  function Limit(n: nat, m: nat): (r: nat)
    ensures r >= m
  {
    if n == 0 then m else Limit(n - 1, 16 * m)
  }

  lemma {:induction false} HexBound(s: string, acc: nat, n: nat, m: nat)
    requires |s| <= n && acc < m
    ensures HexDigits(s, acc) < Limit(n, m)
  {
    if s != "" && IsHex(s[0]) {
      HexBound(s[1..], 16 * acc + DigitValue(s[0]), n - 1, 16 * m);
    }
  }

  lemma ShortHex(s: string)
    requires |s| <= 4
    ensures Strtol16(s) <= 0xffff
  {
    HexBound(s, 0, 4, 1);
    assert Limit(4, 1) == 0x1_0000;
    if |s| >= 2 {
      HexBound(s[2..], 0, 4, 1);
    }
  }

  /** ipv6str_to_bytes with `cnt` bytes written so far: the bytes it writes from here, and whether it
      reaches the end of the string. */
  function ToBytes(s: string, cnt: nat): (r: Parsed)
    requires cnt % 2 == 0 && cnt <= 16
    ensures cnt + |r.bytes| <= 16
    decreases 16 - cnt
  {
    if s == "" then Parsed([], true)
    else if cnt > 15 || !IsHex(s[0]) then Parsed([], false)
    else
      match GroupLength(s)
      case None => Parsed([], false)
      case Some(length) =>
        var v := Strtol16(s[..length]);
        ShortHex(s[..length]);
        var rest := ToBytes(SkipColon(s[length..]), cnt + 2);
        Parsed(Be16(v) + rest.bytes, rest.ok)
  }

  /** The return value of ipv6str_to_bytes. */
  function Count(p: Parsed): nat { if p.ok then |p.bytes| else 0 }

  /** The two halves around the "::" at `p`: the bottom half goes to the end of the result buffer, then
      the top half to its start. */
  function ParseHalves(s: string, p: nat): (seq<byte>, nat)
    requires p + 2 <= |s|
  {
    var zero := Fill(0, 16);
    var bottom := ToBytes(s[p + 2..], 0);
    if p % 0x1_0000 >= 30 || Count(bottom) == 0 then (zero, 0)
    else
      var withBottom := Patch(zero, 16 - |bottom.bytes|, bottom.bytes);
      var top := ToBytes(s[..p % 0x1_0000], 0);
      if Count(top) == 0 then (withBottom, 0) else (Patch(withBottom, 0, top.bytes), |bottom.bytes|)
  }

  /** What str_to_ipv6 leaves in its result buffer, and its return value. */
  function Parse(s: string): (seq<byte>, nat) {
    var p := FindStr(s, "::", 0);
    if CheckColons(s) == 0 then (Fill(0, 16), 0)
    else if p == |s| then (Patch(Fill(0, 16), 0, ToBytes(s, 0).bytes), Count(ToBytes(s, 0)))
    else if s == "::1" then (Fill(0, 15) + [1], 16)
    else ParseHalves(s, p)
  }
}
