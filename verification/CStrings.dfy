/** C strings in a buffer, and the functions of lib/libc/string that write them in place. */
module CStrings {

  const NUL: char := '\0'

  /** A text without terminator. */
  predicate IsText(s: string) { NUL !in s }

  /** The buffer holds the text and its terminator at `at`. */
  predicate HoldsAt(buf: seq<char>, at: nat, s: string) {
    IsText(s) && at + |s| < |buf| && buf[at..at + |s|] == s && buf[at + |s|] == NUL
  }

  lemma CharsAt(buf: seq<char>, at: nat, s: string)
    requires HoldsAt(buf, at, s)
    ensures at + |s| < |buf| && buf[at + |s|] == NUL
    ensures forall i :: 0 <= i < |s| ==> buf[at + i] == s[i] != NUL
  {
    assert forall i :: 0 <= i < |s| ==> buf[at + i] == buf[at..at + |s|][i] == s[i] && s[i] in s;
  }

  /** A string that starts inside another one. */
  lemma HoldsTail(buf: seq<char>, at: nat, s: string, k: nat)
    requires HoldsAt(buf, at, s) && k <= |s|
    ensures HoldsAt(buf, at + k, s[k..])
  {
    assert buf[at + k..at + |s|] == buf[at..at + |s|][k..];
  }

  /** strlen. */
  method StrLen(buf: array<char>, ghost s: string) returns (n: nat)
    requires HoldsAt(buf[..], 0, s)
    ensures n == |s|
  {
    CharsAt(buf[..], 0, s);
    n := 0;
    while buf[n] != NUL
      invariant 0 <= n <= |s|
      decreases |s| - n
    {
      assert buf[n] == buf[..][0 + n];
      n := n + 1;
    }
    assert buf[n] == buf[..][0 + n];
  }

  /** strcpy from `src` to `dst` in front of it, in one buffer; the two may overlap. */
  method StrCpyDown(buf: array<char>, dst: nat, src: nat, ghost s: string)
    requires HoldsAt(buf[..], src, s) && dst <= src
    modifies buf
    ensures HoldsAt(buf[..], dst, s) && buf[..dst] == old(buf[..dst])
  {
    CharsAt(buf[..], src, s);
    ghost var m := buf[..];
    var i := 0;
    while buf[src + i] != NUL
      invariant 0 <= i <= |s|
      invariant buf[..dst] == m[..dst] && buf[dst..dst + i] == s[..i]
      invariant forall j :: src + i <= j < buf.Length ==> buf[j] == m[j]
      decreases |s| - i
    {
      assert buf[src + i] == m[src + i];
      buf[dst + i] := buf[src + i];
      i := i + 1;
    }
    assert buf[src + i] == m[src + i];
    buf[dst + i] := NUL;
    assert s[..i] == s;
  }

  /** strcat of a part of the same buffer behind the terminator of the string at its start. */
  method StrCatDown(buf: array<char>, src: nat, ghost s: string, ghost t: string)
    requires HoldsAt(buf[..], 0, s) && HoldsAt(buf[..], src, t) && |s| <= src
    modifies buf
    ensures HoldsAt(buf[..], 0, s + t)
  {
    var p := StrLen(buf, s);
    StrCpyDown(buf, p, src, t);
    assert buf[..p] == s && buf[0..p + |t|] == buf[..p] + buf[p..p + |t|];
  }

  /** strcpy of another text. */
  method StrCpy(buf: array<char>, dst: nat, t: string)
    requires IsText(t) && dst + |t| < buf.Length
    modifies buf
    ensures HoldsAt(buf[..], dst, t) && buf[..dst] == old(buf[..dst])
    ensures buf[dst + |t| + 1..] == old(buf[dst + |t| + 1..])
  {
    ghost var m := buf[..];
    var i := 0;
    while i < |t|
      invariant 0 <= i <= |t| && buf[..dst] == m[..dst] && buf[dst..dst + i] == t[..i]
      invariant forall j :: dst + i <= j < buf.Length ==> buf[j] == m[j]
    {
      buf[dst + i] := t[i];
      i := i + 1;
    }
    buf[dst + i] := NUL;
    assert t[..i] == t;
  }

  /** strcat of another text. */
  method StrCat(buf: array<char>, t: string, ghost s: string)
    requires HoldsAt(buf[..], 0, s) && IsText(t) && |s| + |t| < buf.Length
    modifies buf
    ensures HoldsAt(buf[..], 0, s + t) && buf[|s| + |t| + 1..] == old(buf[|s| + |t| + 1..])
  {
    var p := StrLen(buf, s);
    StrCpy(buf, p, t);
    assert buf[..p] == s && buf[0..p + |t|] == buf[..p] + buf[p..p + |t|];
  }

  /** sprintf(buf, "%s...", buf, ...): the string is copied onto itself, and `t` is what the other conversions
      print behind it. */
  method PrintOnto(buf: array<char>, t: string, ghost s: string)
    requires HoldsAt(buf[..], 0, s) && IsText(t) && |s| + |t| < buf.Length
    modifies buf
    ensures HoldsAt(buf[..], 0, s + t)
  {
    CharsAt(buf[..], 0, s);
    ghost var m := buf[..];
    var i := 0;
    while buf[i] != NUL
      invariant 0 <= i <= |s| && buf[..] == m
      decreases |s| - i
    {
      assert buf[i] == m[0 + i];
      buf[i] := buf[i];
      i := i + 1;
    }
    assert buf[i] == m[0 + i];
    StrCpy(buf, i, t);
    assert buf[..i] == s && buf[0..i + |t|] == buf[..i] + buf[i..i + |t|];
  }

  /** strcmp with another text: whether they are equal. */
  method StrEquals(buf: array<char>, t: string, ghost s: string) returns (equal: bool)
    requires HoldsAt(buf[..], 0, s) && IsText(t)
    ensures equal == (s == t)
  {
    CharsAt(buf[..], 0, s);
    var i := 0;
    while i < |t| && buf[i] == t[i]
      invariant 0 <= i <= |t| && i <= |s| && s[..i] == t[..i]
    {
      assert t[i] in t && buf[i] == buf[..][0 + i];
      i := i + 1;
    }
    assert buf[i] == buf[..][0 + i];
    if i < |t| {
      return false;
    }
    assert t[..i] == t && (i == |s| ==> s[..i] == s);
    equal := buf[i] == NUL;
  }
}
