/** Parsing undoes printing for every IPv6 address. */
module Ipv6RoundTrip {
  import opened Bytes
  import opened Ipv6Text

  function Plus(a: (int, nat), b: (int, nat)): (int, nat) { (a.0 + b.0, a.1 + b.1) }

  lemma {:induction false} ColonsAppend(s: string, t: string)
    requires s == "" || t == "" || s[|s| - 1] != ':' || t[0] != ':'
    ensures Colons(s + t) == Plus(Colons(s), Colons(t))
  {
    if s == "" {
      assert s + t == t;
    } else {
      assert (s + t)[1..] == s[1..] + t;
      ColonsAppend(s[1..], t);
    }
  }

  lemma {:induction false} NoColons(s: string)
    requires AllHex(s)
    ensures Colons(s) == (0, 0)
  {
    if s != "" {
      NoColons(s[1..]);
    }
  }

  /** Text without two colons in a row, that neither starts nor ends with a colon. */
  predicate Plain(s: string) { s != "" && s[0] != ':' && s[|s| - 1] != ':' && Colons(s).1 == 0 }

  lemma ColonBefore(s: string)
    requires s != "" && s[0] != ':'
    ensures Colons([':'] + s) == (Colons(s).0 + 1, Colons(s).1)
  {
    assert ([':'] + s)[1..] == s;
  }

  lemma DoubleBefore(s: string)
    requires s == "" || s[0] != ':'
    ensures Colons([':', ':'] + s) == (Colons(s).0, Colons(s).1 + 1)
  {
    assert ([':', ':'] + s)[1..] == [':'] + s;
    assert ([':'] + s)[1..] == s;
  }

  lemma Glue(t: string, rest: string)
    requires t != "" && AllHex(t) && Plain(rest)
    ensures var s := t + ([':'] + rest);
            Plain(s) && IsHex(s[0]) && Colons(s) == (Colons(rest).0 + 1, 0)
  {
    hide Colons;
    NoColons(t);
    ColonBefore(rest);
    ColonsAppend(t, [':'] + rest);
  }

  lemma JoinUnfolds(g: Groups)
    requires |g| >= 1
    ensures Join(g) == if |g| == 1 then Text(g[0]) else Text(g[0]) + ([':'] + Join(g[1..]))
  {
    if |g| > 1 {
      assert Text(g[0]) + ":" + Join(g[1..]) == Text(g[0]) + ([':'] + Join(g[1..]));
    }
  }

  lemma {:induction false} JoinShape(g: Groups)
    requires g != []
    ensures Plain(Join(g)) && IsHex(Join(g)[0]) && Colons(Join(g)) == (|g| - 1, 0)
    ensures |Join(g)| <= 5 * |g| - 1
  {
    hide Text, Colons, Strtol16, Join;
    JoinUnfolds(g);
    TextShape(g[0]);
    if |g| > 1 {
      JoinShape(g[1..]);
      Glue(Text(g[0]), Join(g[1..]));
    } else {
      NoColons(Text(g[0]));
    }
  }

  lemma {:induction false} DoubleCounts(s: string, k: nat)
    requires Occurs(s, "::", k)
    ensures Colons(s).1 > 0
  {
    if k == 0 {
      assert s[0] == s[0..2][0] && s[1] == s[0..2][1];
    } else {
      assert s[1..][k - 1..k + 1] == s[k..k + 2];
      DoubleCounts(s[1..], k - 1);
    }
  }

  /** In A::B, with plain or empty A, the first double colon is the one behind A. */
  lemma FindsDouble(a: string, b: string)
    requires a == "" || Plain(a)
    ensures FindStr(a + "::" + b, "::", 0) == |a|
  {
    var s := a + "::" + b;
    assert s[|a|..|a| + 2] == "::";
    assert Occurs(s, "::", |a|);
    forall k | 0 <= k < |a|
      ensures !Occurs(s, "::", k)
    {
      if Occurs(s, "::", k) {
        assert s[k] == s[k..k + 2][0] == ':' && s[k + 1] == s[k..k + 2][1] == ':';
        if k + 2 <= |a| {
          assert a[k..k + 2] == s[k..k + 2];
          DoubleCounts(a, k);
        }
      }
    }
  }

  lemma FindsNoDouble(s: string)
    requires Colons(s).1 == 0
    ensures FindStr(s, "::", 0) == |s|
  {
    if FindStr(s, "::", 0) < |s| {
      DoubleCounts(s, FindStr(s, "::", 0));
    }
  }

  function BytesOf(g: Groups): (b: seq<byte>)
    ensures |b| == 2 * |g|
  {
    if g == [] then [] else Be16(g[0]) + BytesOf(g[1..])
  }

  lemma FindsColon(t: string, rest: string)
    requires AllHex(t)
    ensures Find(t + rest, ':', 0) >= |t|
    ensures rest != "" && rest[0] == ':' ==> Find(t + rest, ':', 0) == |t|
  {
    var s := t + rest;
    var p := Find(s, ':', 0);
    assert forall k :: 0 <= k < |t| ==> s[k] == t[k] && IsHex(t[k]);
    if rest != "" && rest[0] == ':' {
      assert s[|t|] == ':';
    }
  }

  lemma FirstGroup(t: string, rest: string)
    requires 1 <= |t| <= 4 && AllHex(t) && (rest == "" || rest[0] == ':')
    ensures GroupLength(t + rest) == Some(|t|) && IsHex((t + rest)[0])
    ensures (t + rest)[..|t|] == t && (t + rest)[|t|..] == rest
  {
    FindsColon(t, rest);
    if rest == "" {
      assert t + rest == t;
    }
  }

  /** One group in front of the end of the string or of a colon. */
  lemma ReadsGroup(v: uint16, rest: string, cnt: nat)
    requires cnt % 2 == 0 && cnt <= 14 && (rest == "" || rest[0] == ':')
    ensures var more := ToBytes(SkipColon(rest), cnt + 2);
            ToBytes(Text(v) + rest, cnt) == Parsed(Be16(v) + more.bytes, more.ok)
  {
    hide Text, Strtol16, GroupLength, SkipColon, Be16, AllHex, IsHex;
    TextShape(v);
    FirstGroup(Text(v), rest);
  }

  /** Groups separated by single colons read back as their bytes. */
  lemma {:induction false} ReadsGroups(g: Groups, cnt: nat)
    requires cnt % 2 == 0 && cnt + 2 * |g| <= 16
    ensures ToBytes(Join(g), cnt) == Parsed(BytesOf(g), true)
  {
    hide Text, Join, ToBytes, Be16;
    if g == [] {
      NoGroups(cnt);
    } else {
      JoinUnfolds(g);
      if |g| == 1 {
        ReadsGroup(g[0], "", cnt);
        NoGroups(cnt + 2);
        assert Text(g[0]) + "" == Text(g[0]);
        assert g[1..] == [];
      } else {
        var rest := Join(g[1..]);
        ReadsGroup(g[0], [':'] + rest, cnt);
        assert SkipColon([':'] + rest) == rest;
        ReadsGroups(g[1..], cnt + 2);
      }
    }
  }

  lemma NoGroups(cnt: nat)
    requires cnt % 2 == 0 && cnt <= 16
    ensures Join([]) == "" && SkipColon("") == "" && ToBytes("", cnt) == Parsed([], true) == Parsed(BytesOf([]), true)
  {
  }

  lemma {:induction false} BytesOfAt(g: Groups, i: nat)
    requires i < |g|
    ensures BytesOf(g)[2 * i..2 * i + 2] == Be16(g[i])
  {
    if i == 0 {
      SplitAt(Be16(g[0]), BytesOf(g[1..]));
    } else {
      BytesOfAt(g[1..], i - 1);
      assert BytesOf(g)[2 * i..2 * i + 2] == BytesOf(g[1..])[2 * (i - 1)..2 * (i - 1) + 2];
    }
  }

  lemma BytesOfGroups(a: seq<byte>)
    requires IsAddress(a)
    ensures BytesOf(GroupsOf(a)) == a
  {
    var b := BytesOf(GroupsOf(a));
    forall k | 0 <= k < 16
      ensures b[k] == a[k]
    {
      var i := k / 2;
      BytesOfAt(GroupsOf(a), i);
      assert b[k] == b[2 * i..2 * i + 2][k - 2 * i] && a[k] == a[2 * i..2 * i + 2][k - 2 * i];
    }
  }

  lemma {:induction false} BytesOfSplit(g: Groups, i: nat)
    requires i <= |g|
    ensures BytesOf(g) == BytesOf(g[..i]) + BytesOf(g[i..])
  {
    if i == 0 {
      assert g[..0] == [] && g[0..] == g;
    } else {
      BytesOfSplit(g[1..], i - 1);
      assert g[..i][1..] == g[1..][..i - 1] && g[1..][i - 1..] == g[i..];
    }
  }

  lemma {:induction false} BytesOfZeros(g: Groups)
    requires forall k :: 0 <= k < |g| ==> g[k] == 0
    ensures BytesOf(g) == Fill(0, 2 * |g|)
  {
    if g != [] {
      BytesOfZeros(g[1..]);
    }
  }

  lemma CheckPassesJoined(g: Groups)
    requires |g| == 8
    ensures CheckColons(Join(g)) == 7
  {
    JoinShape(g);
  }

  /** A "::" between fewer than eight groups passes check_colons. */
  lemma CheckPassesDouble(top: Groups, bottom: Groups)
    requires |top| + |bottom| <= 6
    ensures CheckColons(Join(top) + "::" + Join(bottom)) >= 1
  {
    hide Text, Colons, Join;
    var a, b := Join(top), Join(bottom);
    JoinColons(top);
    JoinColons(bottom);
    DoubleBefore(b);
    ColonsAppend(a, [':', ':'] + b);
    assert a + ([':', ':'] + b) == a + "::" + b;
  }

  lemma JoinColons(g: Groups)
    ensures Colons(Join(g)) == (if g == [] then 0 else |g| - 1, 0)
    ensures g == [] <==> Join(g) == ""
    ensures g != [] ==> Plain(Join(g))
  {
    if g != [] { JoinShape(g); }
  }

  // ----- the round trip

  lemma HalvesCombine(s: string, p: nat, high: seq<byte>, low: seq<byte>)
    requires p + 2 <= |s| && p < 30 && |high| + |low| <= 16
    requires ToBytes(s[..p], 0) == Parsed(high, true) && ToBytes(s[p + 2..], 0) == Parsed(low, true)
    ensures ParseHalves(s, p) ==
            if low == [] then (Fill(0, 16), 0)
            else (high + Fill(0, 16 - |high| - |low|) + low, if high == [] then 0 else |low|)
  {
    hide ToBytes;
    TwoPatches(high, low);
  }

  /** What is left in the result buffer for a text "top::bottom". */
  lemma ReadsHalves(top: Groups, bottom: Groups)
    requires |top| + |bottom| <= 6
    ensures var s := Join(top) + "::" + Join(bottom);
            && FindStr(s, "::", 0) == |Join(top)| < |s|
            && ParseHalves(s, |Join(top)|) ==
               if bottom == [] then (Fill(0, 16), 0)
               else (BytesOf(top) + Fill(0, 16 - 2 * |top| - 2 * |bottom|) + BytesOf(bottom),
                     if top == [] then 0 else 2 * |bottom|)
  {
    hide Join, Text, Colons, ToBytes, BytesOf, ParseHalves, Fill;
    var a, b := Join(top), Join(bottom);
    var s := a + "::" + b;
    JoinColons(top);
    FindsDouble(a, b);
    assert s[..|a|] == a && s[|a| + 2..] == b;
    ReadsGroups(top, 0);
    ReadsGroups(bottom, 0);
    if top != [] { JoinShape(top); }
    HalvesCombine(s, |a|, BytesOf(top), BytesOf(bottom));
  }

  lemma TwoPatches(high: seq<byte>, low: seq<byte>)
    requires |high| + |low| <= 16
    ensures var bottom := Patch(Fill(0, 16), 16 - |low|, low);
            && Patch(bottom, 0, high) == high + Fill(0, 16 - |high| - |low|) + low
            && (high == [] ==> bottom == high + Fill(0, 16 - |high| - |low|) + low)
  {
  }

  /** The zero groups that "::" stands for. */
  lemma Compressed(g: Groups, i: nat, j: nat)
    requires i <= j <= |g| == 8 && forall k :: i <= k < j ==> g[k] == 0
    ensures BytesOf(g) == BytesOf(g[..i]) + Fill(0, 16 - 2 * |g[..i]| - 2 * |g[j..]|) + BytesOf(g[j..])
  {
    hide BytesOf, Fill;
    BytesOfSplit(g, i);
    BytesOfSplit(g[i..], j - i);
    assert g[i..][..j - i] == g[i..j] && g[i..][j - i..] == g[j..];
    BytesOfZeros(g[i..j]);
  }

  lemma LastGroup(g: Groups, j: nat)
    requires |g| == 8 && j <= 7
    ensures |Join(g[j..])| == 1 ==> j == 7
    ensures Join(g[j..]) == "0" ==> g[7] == 0
    ensures Join(g[j..]) == "1" ==> g[7] == 1
  {
    if j < 7 {
      JoinUnfolds(g[j..]);
      TextShape(g[j]);
    } else {
      assert g[7..] == [g[7]];
      TextShape(g[7]);
      assert Strtol16("0") == 0;
      assert Strtol16("1") == 1;
    }
  }

  /** str_to_ipv6 on the output of ipv6_to_str leaves exactly the printed address in its buffer. Its
      return value is nonzero except for a text that starts with "::" and is not "::1": there the bytes
      are stored as well, but 0 is returned. */
  lemma ParseUndoesPrint(a: seq<byte>)
    requires IsAddress(a)
    ensures var s := Print(GroupsOf(a));
            && Parse(s).0 == a
            && (Parse(s).1 == 0 <==> Occurs(s, "::", 0) && s != "::1")
  {
    hide Join, Text, ToBytes, BytesOf, Colons, ZeroPair, ZeroEnd, CheckColons;
    var g := GroupsOf(a);
    var s := Print(g);
    BytesOfGroups(a);
    match ZeroPair(g, 0)
    case None =>
      CheckPassesJoined(g);
      JoinShape(g);
      FindsNoDouble(s);
      ReadsGroups(g, 0);
      assert Patch(Fill(0, 16), 0, a) == a;
      if Occurs(s, "::", 0) {
        DoubleCounts(s, 0);
      }
    case Some(i) =>
      var j := ZeroEnd(g, i + 2);
      Compressed(g, i, j);
      if i == 0 && Join(g[j..]) == "0" {
        PrintedZero(g, j);
      } else {
        PrintedHalves(g, i, j);
      }
  }

  lemma PrintedZero(g: Groups, j: nat)
    requires |g| == 8 && j <= 7 && Join(g[j..]) == "0" && forall k :: 0 <= k < j ==> g[k] == 0
    ensures Parse("::") == (BytesOf(g), 0) && Occurs("::", "::", 0)
  {
    LastGroup(g, j);
    BytesOfZeros(g);
    CheckPassesDouble([], []);
    ReadsHalves([], []);
    assert Join([]) + "::" + Join([]) == "::";
  }

  lemma StartsWithColon(s: string)
    ensures Occurs(s, "::", 0) ==> s[0] == ':'
  {
    if Occurs(s, "::", 0) {
      assert s[0] == s[0..2][0];
    }
  }

  lemma PrintedHalves(g: Groups, i: nat, j: nat)
    requires |g| == 8 && i + 2 <= j <= 7 && (i == 0 ==> Join(g[j..]) != "0")
    requires forall k :: i <= k < j ==> g[k] == 0
    requires BytesOf(g) == BytesOf(g[..i]) + Fill(0, 16 - 2 * |g[..i]| - 2 * |g[j..]|) + BytesOf(g[j..])
    ensures var s := Join(g[..i]) + "::" + Join(g[j..]);
            Parse(s).0 == BytesOf(g) && (Parse(s).1 == 0 <==> Occurs(s, "::", 0) && s != "::1")
  {
    hide Join, Text, ToBytes, Colons, CheckColons, BytesOf, ParseHalves;
    var a, b := Join(g[..i]), Join(g[j..]);
    var s := a + "::" + b;
    CheckPassesDouble(g[..i], g[j..]);
    ReadsHalves(g[..i], g[j..]);
    JoinColons(g[..i]);
    assert Occurs(s, "::", 0) <==> i == 0 by {
      if i == 0 {
        assert s[0..2] == "::";
      } else {
        assert s[0] == a[0] != ':';
        StartsWithColon(s);
      }
    }
    if s == "::1" {
      assert i == 0 by { assert s[0..2] == "::"; }
      assert b == s[2..] == "1";
      OnlyLastIsOne(g, j);
    }
  }

  lemma OnlyLastIsOne(g: Groups, j: nat)
    requires |g| == 8 && j <= 7 && Join(g[j..]) == "1" && forall k :: 0 <= k < j ==> g[k] == 0
    ensures BytesOf(g) == Fill(0, 15) + [1]
  {
    hide Join, Text;
    LastGroup(g, j);
    BytesOfZeros(g[..7]);
    BytesOfSplit(g, 7);
    assert g[7..] == [1] && BytesOf([1]) == Be16(1) + BytesOf([]);
    assert Fill(0, 15) + [1] == Fill(0, 14) + Be16(1);
  }
}
