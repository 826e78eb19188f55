/** The IPv6 printer and parser of lib/libnet/ipv6.c in their own form: loops that move pointers over a
    string and fill byte buffers in place. */
module Ipv6 {
  import opened Bytes
  import opened CStrings
  import opened Ipv6Text
  import opened Ipv6RoundTrip

  // ----- printing

  /** Group `k` starts here in the text of all groups. */
  function Begin(g: Groups, k: nat): nat
    requires k < |g|
  {
    if k == 0 then 0 else |Text(g[0])| + 1 + Begin(g[1..], k - 1)
  }

  /** Behind its beginning, the text of all groups is the text of the groups from `k` on. */
  lemma {:induction false} SuffixAt(g: Groups, k: nat)
    requires k < |g|
    ensures Begin(g, k) <= |Join(g)| && Join(g)[Begin(g, k)..] == Join(g[k..])
    ensures Join(g)[..Begin(g, k)] == if k == 0 then "" else Join(g[..k]) + ":"
    ensures k + 1 < |g| ==> Begin(g, k + 1) == Begin(g, k) + |Text(g[k])| + 1
  {
    hide Text, Join;
    JoinUnfolds(g);
    if k == 0 {
      assert g[0..] == g;
      if |g| > 1 { assert Begin(g[1..], 0) == 0; }
    } else {
      var t := Text(g[0]);
      SuffixAt(g[1..], k - 1);
      assert g[1..][k - 1..] == g[k..];
      assert g[..k][1..] == g[1..][..k - 1];
      JoinUnfolds(g[..k]);
      var b := Begin(g[1..], k - 1);
      assert Join(g) == t + ([':'] + Join(g[1..]));
      assert Join(g)[|t| + 1 + b..] == Join(g[1..])[b..];
      assert Join(g)[..|t| + 1 + b] == t + [':'] + Join(g[1..])[..b];
      if k == 1 {
        assert t + [':'] + "" == t + ":";
      } else {
        assert t + [':'] + (Join(g[..k][1..]) + ":") == t + ([':'] + Join(g[..k][1..])) + ":";
      }
    }
  }

  /** The group whose last digit starts the first "0:0:" behind group `k`: it ends with 0 and the next
      group is zero and not the last. */
  function Hit(g: Groups, k: nat): (r: Option<nat>)
    requires k < |g|
    ensures r.Some? ==> k <= r.value && r.value + 2 < |g| && g[r.value + 1] == 0
    decreases |g| - k
  {
    if k + 2 >= |g| then None
    else if Text(g[k]) != "" && Text(g[k])[|Text(g[k])| - 1] == '0' && g[k + 1] == 0 then Some(k)
    else Hit(g, k + 1)
  }

  const PAIR := "0:0:"

  /** Where "0:0:" can start inside one group's text and the rest. */
  lemma PairInGroup(t: string, rest: string, p: nat)
    requires 1 <= |t| <= 4 && AllHex(t) && p < |t|
    requires rest == "" || rest[0] == ':'
    ensures Occurs(t + rest, PAIR, p) <==>
            p == |t| - 1 && t[p] == '0' && |rest| >= 3 && rest[1] == '0' && rest[2] == ':'
  {
    var s := t + rest;
    assert s[|t|..] == rest;
    if p + 4 <= |s| {
      var w := s[p..p + 4];
      assert w == PAIR <==> w[0] == '0' && w[1] == ':' && w[2] == '0' && w[3] == ':';
      if p < |t| - 1 {
        assert w[1] == t[p + 1] && IsHex(t[p + 1]);
      }
    }
  }

  lemma StartsWithZeroGroup(g: Groups)
    requires g != []
    ensures g[0] == 0 && |g| > 1 <==> |Join(g)| >= 2 && Join(g)[0] == '0' && Join(g)[1] == ':'
  {
    hide Text, Join, Strtol16;
    JoinUnfolds(g);
    TextShape(g[0]);
    var t := Text(g[0]);
    if |t| > 1 {
      assert Join(g)[1] == t[1] && IsHex(t[1]);
    }
  }

  lemma {:induction false} FindInTail(s: string, t: string, i: nat, n: nat)
    requires n <= i <= |s| && t != ""
    ensures FindStr(s, t, i) == n + FindStr(s[n..], t, i - n)
    decreases |s| - i
  {
    if i < |s| {
      assert i + |t| <= |s| ==> s[i..i + |t|] == s[n..][i - n..i - n + |t|];
      FindInTail(s, t, i + 1, n);
    }
  }

  lemma NotAtColon(s: string, k: nat)
    requires k < |s| && s[k] == ':'
    ensures !Occurs(s, PAIR, k)
  {
    if k + 4 <= |s| { assert s[k..k + 4][0] == ':'; }
  }

  /** The search over the first group: it stops at the group's last digit or goes on behind the colon. */
  lemma FirstGroupHit(t: string, rest: string)
    requires 1 <= |t| <= 4 && AllHex(t) && rest != "" && rest[0] == ':'
    ensures var s := t + rest;
            FindStr(s, PAIR, 0) == if Occurs(s, PAIR, |t| - 1) then |t| - 1 else FindStr(s, PAIR, |t| + 1)
  {
    hide Occurs, FindStr;
    var s := t + rest;
    forall p | 0 <= p < |t|
      ensures Occurs(s, PAIR, p) ==> p == |t| - 1
    {
      PairInGroup(t, rest, p);
    }
    NotAtColon(s, |t|);
    if Occurs(s, PAIR, |t| - 1) {
      SkipTo(s, PAIR, 0, |t| - 1);
      Stops(s, PAIR, |t| - 1);
    } else {
      SkipTo(s, PAIR, 0, |t| + 1);
    }
  }

  lemma Stops(s: string, t: string, i: nat)
    requires i < |s| && t != "" && Occurs(s, t, i)
    ensures FindStr(s, t, i) == i
  {
  }

  lemma OnlyOneGroup(t: string)
    requires 1 <= |t| <= 4 && AllHex(t)
    ensures FindStr(t, PAIR, 0) == |t|
  {
    var p := FindStr(t, PAIR, 0);
    if p < |t| {
      assert t + "" == t;
      PairInGroup(t, "", p);
    }
  }

  /** The first group is hit exactly if it ends with 0 and a zero group with a successor follows. */
  lemma FirstIsHit(g: Groups)
    requires |g| > 1
    ensures Occurs(Join(g), PAIR, |Text(g[0])| - 1) <==> Hit(g, 0) == Some(0)
  {
    hide Text, Strtol16, Occurs, Join;
    JoinUnfolds(g);
    TextShape(g[0]);
    var t, rest := Text(g[0]), [':'] + Join(g[1..]);
    PairInGroup(t, rest, |t| - 1);
    StartsWithZeroGroup(g[1..]);
  }

  /** strstr for "0:0:" stops at the last digit of the hit group. */
  lemma {:induction false} FindsHit(g: Groups)
    requires g != []
    ensures FindStr(Join(g), PAIR, 0) ==
            match Hit(g, 0)
            case None => |Join(g)|
            case Some(i) => Begin(g, i) + |Text(g[i])| - 1
  {
    hide Text, Strtol16, Occurs, FindStr, Join;
    JoinUnfolds(g);
    TextShape(g[0]);
    var t, s := Text(g[0]), Join(g);
    if |g| == 1 {
      OnlyOneGroup(t);
    } else {
      var rest := [':'] + Join(g[1..]);
      FirstGroupHit(t, rest);
      FirstIsHit(g);
      if !Occurs(s, PAIR, |t| - 1) {
        HitShifts(g, 0);
        FindsHit(g[1..]);
        FindInTail(s, PAIR, |t| + 1, |t| + 1);
        assert s[|t| + 1..] == Join(g[1..]);
      }
    }
  }

  lemma {:induction false} SkipTo(s: string, t: string, i: nat, j: nat)
    requires i <= j <= |s| && t != "" && forall k :: i <= k < j ==> !Occurs(s, t, k)
    ensures FindStr(s, t, i) == FindStr(s, t, j)
    decreases j - i
  {
    if i < j { SkipTo(s, t, i + 1, j); }
  }

  lemma {:induction false} HitShifts(g: Groups, k: nat)
    requires k + 1 < |g|
    ensures Hit(g, k + 1) == match Hit(g[1..], k) case None => None case Some(i) => Some(i + 1)
    ensures forall i :: 0 <= i < |g| - 1 ==> Begin(g, i + 1) == |Text(g[0])| + 1 + Begin(g[1..], i)
    decreases |g| - k
  {
    hide Text;
    if k + 2 < |g| { HitShifts(g, k + 1); }
  }

  lemma {:induction false} HitAt(g: Groups, k: nat)
    requires k < |g|
    ensures Hit(g, k) == match Hit(g[k..], 0) case None => None case Some(i) => Some(k + i)
  {
    hide Hit, Text;
    if k == 0 {
      assert g[0..] == g;
    } else {
      HitShifts(g, k - 1);
      HitAt(g[1..], k - 1);
      assert g[1..][k - 1..] == g[k..];
    }
  }

  lemma {:induction false} BeginAt(g: Groups, k: nat, i: nat)
    requires k + i < |g|
    ensures Begin(g, k + i) == Begin(g, k) + Begin(g[k..], i)
  {
    hide Text;
    if k == 0 {
      assert g[0..] == g;
    } else {
      BeginAt(g[1..], k - 1, i);
      assert g[1..][k - 1..] == g[k..];
    }
  }

  /** A hit in a zero group is the first zero pair; a hit inside a longer group only moves the search on. */
  lemma {:induction false} HitLeadsToPair(g: Groups, k: nat)
    requires |g| == 8 && k < 8
    ensures match Hit(g, k)
            case None => ZeroPair(g, k) == None
            case Some(i) => ZeroPair(g, k) == if g[i] == 0 then Some(i) else ZeroPair(g, i + 1)
    decreases 8 - k
  {
    hide Text;
    TextShape(g[k]);
    if k + 2 < 8 && Hit(g, k) != Some(k) {
      HitLeadsToPair(g, k + 1);
    }
  }

  lemma FoundAt(g: Groups, k: nat)
    requires |g| == 8 && k < 8
    ensures Begin(g, k) <= |Join(g)|
    ensures FindStr(Join(g), PAIR, Begin(g, k)) ==
            match Hit(g, k)
            case None => |Join(g)|
            case Some(i) => Begin(g, i) + |Text(g[i])| - 1
  {
    hide Text, Strtol16, FindStr, Hit, Join, Begin;
    SuffixAt(g, k);
    FindInTail(Join(g), PAIR, Begin(g, k), Begin(g, k));
    FindsHit(g[k..]);
    HitAt(g, k);
    if Hit(g, k).Some? {
      BeginAt(g, k, Hit(g, k).value - k);
    }
  }

  /** The characters around the last digit of group `i`. */
  lemma AroundGroup(g: Groups, i: nat)
    requires |g| == 8 && i < 7
    ensures var s, b, t := Join(g), Begin(g, i), Text(g[i]);
            && b + |t| + 1 == Begin(g, i + 1) <= |s|
            && (i > 0 ==> b > 0 && s[b - 1] == ':')
            && (|t| > 1 ==> s[b + |t| - 2] != ':')
  {
    hide Text, Strtol16, Join;
    var s, b, t := Join(g), Begin(g, i), Text(g[i]);
    SuffixAt(g, i);
    SuffixAt(g, i + 1);
    TextShape(g[i]);
    JoinUnfolds(g[i..]);
    if |t| > 1 {
      assert s[b + |t| - 2] == s[b..][|t| - 2] == t[|t| - 2] && IsHex(t[|t| - 2]);
    }
    if i > 0 {
      assert s[b - 1] == s[..b][b - 1];
    }
  }

  lemma {:induction false} BeginGrows(g: Groups, k: nat, i: nat)
    requires k < i < |g|
    ensures Begin(g, k) < Begin(g, i)
    decreases i
  {
    hide Text, Join;
    SuffixAt(g, i - 1);
    if k < i - 1 { BeginGrows(g, k, i - 1); }
  }

  /** One search from the beginning of group `k`: it finds the hit group's last digit, behind a colon or
      the starting point exactly if that group is zero. */
  lemma SearchFrom(g: Groups, k: nat)
    requires |g| == 8 && k < 8
    ensures var s, b := Join(g), Begin(g, k);
            b <= |s| &&
            var p := FindStr(s, PAIR, b);
            match Hit(g, k)
            case None => p == |s|
            case Some(i) =>
              && p < |s| && p >= b
              && (if g[i] == 0 then p == Begin(g, i) && (p == b || s[p - 1] == ':')
                  else p > b && s[p - 1] != ':' && p + 2 == Begin(g, i + 1))
  {
    hide Text, Strtol16, FindStr, Hit, Join, Begin;
    FoundAt(g, k);
    if Hit(g, k).Some? {
      var i := Hit(g, k).value;
      AroundGroup(g, i);
      TextShape(g[i]);
      HitEndsWithZero(g, k);
      if i > k { BeginGrows(g, k, i); }
    }
  }

  lemma {:induction false} HitEndsWithZero(g: Groups, k: nat)
    requires k < |g| && Hit(g, k).Some?
    ensures var t := Text(g[Hit(g, k).value]); t != "" && t[|t| - 1] == '0'
    decreases |g| - k
  {
    if Hit(g, k) != Some(k) { HitEndsWithZero(g, k + 1); }
  }

  /** The printed texts fit a buffer of this size, with their terminator. */
  const TEXT_SIZE := 40

  lemma HexIsText(b: byte)
    ensures IsText(Hex(b)) && IsText(Hex2(b)) && |Hex(b)| <= 2 && |Hex2(b)| == 2
  {
  }

  /** The printing loop of ipv6_to_str. */
  method PrintGroups(ip: seq<byte>, str: array<char>)
    requires IsAddress(ip) && str.Length >= TEXT_SIZE
    modifies str
    ensures HoldsAt(str[..], 0, Join(GroupsOf(ip)))
  {
    hide Hex, Hex2, Join, HoldsAt;
    ghost var g := GroupsOf(ip);
    ghost var s := "";
    StrCpy(str, 0, "");
    var i := 0;
    while i < 16
      invariant 0 <= i <= 16 && i % 2 == 0 && HoldsAt(str[..], 0, s) && 2 * |s| <= 5 * i
      invariant s == if i == 16 then Join(g) else if i == 0 then "" else Join(g[..i / 2]) + ":"
    {
      ghost var k := i / 2;
      assert Be16(g[k]) == ip[i..i + 2];
      var even, odd := ip[i], ip[i + 1];
      assert even == ip[i..i + 2][0] && odd == ip[i..i + 2][1];
      HexIsText(even);
      HexIsText(odd);
      if even != 0 {
        PrintOnto(str, Hex(even) + Hex2(odd), s);
      } else if odd != 0 {
        PrintOnto(str, Hex(odd), s);
      } else {
        StrCat(str, "0", s);
      }
      s := s + Text(g[k]);
      JoinOneMore(g, k);
      if i != 14 {
        StrCat(str, ":", s);
        s := s + ":";
      }
      i := i + 2;
    }
  }

  lemma {:induction false} JoinOneMore(g: Groups, k: nat)
    requires k < |g|
    ensures Join(g[..k + 1]) == if k == 0 then Text(g[0]) else Join(g[..k]) + ":" + Text(g[k])
    ensures k + 1 == |g| ==> g[..k + 1] == g
    decreases k
  {
    hide Text, Join;
    JoinUnfolds(g[..k + 1]);
    if k > 0 {
      JoinOneMore(g[1..], k - 1);
      assert g[1..][..k] == g[..k + 1][1..] && g[1..][..k - 1] == g[..k][1..];
      JoinUnfolds(g[..k]);
      var t, rest := Text(g[0]), Join(g[..k][1..]);
      if k == 1 {
        assert t + ([':'] + Text(g[1])) == t + ":" + Text(g[1]);
      } else {
        assert t + ([':'] + (rest + ":" + Text(g[k]))) == t + ([':'] + rest) + ":" + Text(g[k]);
      }
    }
  }

  /** The search loop of ipv6_to_str for a zero pair that starts a group; `str` may also contain "0:0:"
      behind the last digit of a longer group. */
  method FindPair(ghost g: Groups, str: string) returns (found: bool, pos: nat)
    requires |g| == 8 && str == Join(g)
    ensures found == ZeroPair(g, 0).Some?
    ensures found ==> pos == Begin(g, ZeroPair(g, 0).value)
  {
    hide Text, Join, FindStr, Hit, ZeroPair;
    var strptr := 0;
    ghost var k := 0;
    SuffixAt(g, 0);
    while true
      invariant k < 8 && strptr == Begin(g, k) <= |str| && ZeroPair(g, 0) == ZeroPair(g, k)
      decreases 8 - k
    {
      SearchFrom(g, k);
      HitLeadsToPair(g, k);
      pos := FindStr(str, PAIR, strptr);
      if pos == |str| {
        return false, 0;
      }
      var len := pos - strptr;
      if len == 0 {
        return true, pos;
      } else if str[strptr + len - 1] == ':' {
        return true, pos;
      }
      strptr := pos + 2;
      k := Hit(g, k).value + 1;
      SuffixAt(g, k);
    }
  }

  /** ipv6_to_str. */
  method Ipv6ToStr(ip: seq<byte>, str: array<char>)
    requires IsAddress(ip) && str.Length >= TEXT_SIZE
    modifies str
    ensures HoldsAt(str[..], 0, Print(GroupsOf(ip)))
  {
    hide Text, Join, FindStr, Hit, ZeroPair, HoldsAt;
    ghost var g := GroupsOf(ip);
    PrintGroups(ip, str);
    var len := StrLen(str, Join(g));
    StartOf(str[..], Join(g));
    var found, pos := FindPair(g, str[..len]);
    if found {
      ghost var i := ZeroPair(g, 0).value;
      ghost var head := Cut(g, i, str, pos);
      var tail := SkipZeros(g, i + 2, str, pos + 4);
      ghost var rest := Join(g[ZeroEnd(g, i + 2)..]);
      StrCatDown(str, tail, head, rest);
      EndsInZero(g, i, ZeroEnd(g, i + 2));
      var alone := StrEquals(str, "::0", head + rest);
      if alone {
        StrCpy(str, 0, "::");
      }
    }
  }

  /** The text is cut in front of the zero groups, in the buffer; what follows them is still there. */
  method Cut(ghost g: Groups, ghost i: nat, str: array<char>, pos: nat) returns (ghost head: string)
    requires |g| == 8 && i <= 5 && g[i] == 0 && g[i + 1] == 0 && pos == Begin(g, i)
    requires str.Length >= TEXT_SIZE && HoldsAt(str[..], 0, Join(g))
    modifies str
    ensures head == Join(g[..i]) + "::" && HoldsAt(str[..], 0, head)
    ensures |head| <= pos + 2 && Begin(g, i + 2) == pos + 4 && HoldsAt(str[..], pos + 4, Join(g[i + 2..]))
  {
    hide Text, Join, HoldsAt;
    Around(g, i);
    ghost var m, all, rest := str[..], Join(g), Join(g[i + 2..]);
    HoldsTail(m, 0, all, pos + 4);
    CutAt(m, all, pos);
    str[pos] := NUL;
    ghost var m1 := str[..];
    SameTail(m, m1, pos + 1, pos + 4, rest);
    head := all[..pos];
    if pos != 0 {
      StrCat(str, ":", head);
      SameTail(m1, str[..], pos + 2, pos + 4, rest);
      head := head + ":";
    } else {
      StrCat(str, "::", head);
      SameTail(m1, str[..], pos + 3, pos + 4, rest);
      head := head + "::";
    }
  }

  /** The text around a pair of zero groups. */
  lemma Around(g: Groups, i: nat)
    requires |g| == 8 && i <= 5 && g[i] == 0 && g[i + 1] == 0
    ensures var s, b := Join(g), Begin(g, i);
            && b + 4 == Begin(g, i + 2) <= |s| && s[b + 4..] == Join(g[i + 2..]) && (b == 0 <==> i == 0)
            && (if i == 0 then s[..b] + "::" else s[..b] + ":") == Join(g[..i]) + "::"
  {
    hide Text, Join;
    TextShape(0);
    SuffixAt(g, i);
    SuffixAt(g, i + 1);
    SuffixAt(g, i + 2);
    if i > 0 {
      SuffixAt(g, i - 1);
      assert Join(g[..i]) + ":" + ":" == Join(g[..i]) + "::";
    } else {
      JoinColons([]);
      assert g[..0] == [];
    }
  }

  lemma StartOf(m: seq<char>, s: string)
    requires HoldsAt(m, 0, s)
    ensures |s| < |m| && m[..|s|] == s && IsText(s)
  {
    assert m[..|s|] == m[0..0 + |s|];
  }

  /** A terminator in the middle of a string. */
  lemma CutAt(m: seq<char>, s: string, k: nat)
    requires HoldsAt(m, 0, s) && k <= |s|
    ensures k < |m| && HoldsAt(m[k := NUL], 0, s[..k])
  {
    assert m[k := NUL][0..k] == m[0..|s|][..k];
  }

  /** A string in a part of the buffer that did not change. */
  lemma SameTail(m: seq<char>, m1: seq<char>, k: nat, at: nat, s: string)
    requires |m| == |m1| && k <= at && k <= |m| && m1[k..] == m[k..] && HoldsAt(m, at, s)
    ensures HoldsAt(m1, at, s)
  {
    assert forall j :: k <= j < |m| ==> m1[j] == m1[k..][j - k] == m[k..][j - k] == m[j];
  }

  lemma EndsInZero(g: Groups, i: nat, j: nat)
    requires |g| == 8 && i < j <= 7
    ensures var b := Join(g[j..]); Join(g[..i]) + "::" + b == "::0" <==> i == 0 && b == "0"
  {
    hide Text, Join;
    JoinColons(g[..i]);
    var a, b := Join(g[..i]), Join(g[j..]);
    if i == 0 {
      assert a + "::" + b == "::" + b;
      assert ("::" + b)[2..] == b;
    } else {
      assert (a + "::" + b)[0] == a[0] != ':';
    }
  }

  /** The loop that skips the zero groups "::" stands for, over what is left of the uncompressed text. */
  method SkipZeros(ghost g: Groups, ghost k: nat, str: array<char>, start: nat) returns (strptr: nat)
    requires |g| == 8 && 2 <= k <= 7 && start == Begin(g, k) && HoldsAt(str[..], start, Join(g[k..]))
    ensures strptr >= start && HoldsAt(str[..], strptr, Join(g[ZeroEnd(g, k)..]))
  {
    hide Text, Join, HoldsAt;
    strptr := start;
    ghost var j := k;
    CharsAt(str[..], start, Join(g[k..]));
    while str[strptr] != NUL
      invariant k <= j <= 7 && start <= strptr < str.Length && HoldsAt(str[..], strptr, Join(g[j..]))
      invariant ZeroEnd(g, k) == ZeroEnd(g, j)
      decreases str.Length - strptr
    {
      ghost var s := Join(g[j..]);
      CharsAt(str[..], strptr, s);
      StartsWithZeroGroup(g[j..]);
      assert str[strptr] == str[..][strptr + 0];
      assert |s| >= 1 ==> str[strptr + 1] == str[..][strptr + 1];
      if str[strptr] == '0' && str[strptr + 1] == ':' {
        TextShape(g[j]);
        JoinUnfolds(g[j..]);
        assert g[j..][1..] == g[j + 1..] && s[2..] == Join(g[j + 1..]);
        HoldsTail(str[..], strptr, s, 2);
        CharsAt(str[..], strptr + 2, s[2..]);
        strptr, j := strptr + 2, j + 1;
      } else {
        return;
      }
    }
    CharsAt(str[..], strptr, Join(g[j..]));
    JoinColons(g[j..]);
  }

  // ----- parsing

  lemma {:induction false} SkipToColon(s: string, i: nat, p: nat)
    requires i <= p <= |s| && forall k :: i <= k < p ==> s[k] != ':'
    ensures Colons(s[i..]) == Colons(s[p..])
    decreases p - i
  {
    if i < p {
      assert s[i..][1..] == s[i + 1..];
      SkipToColon(s, i + 1, p);
    }
  }

  lemma ColonStep(s: string, p: nat)
    requires p < |s| && s[p] == ':'
    ensures Colons(s[p..]) ==
            Plus(if p + 1 < |s| && s[p + 1] == ':' then (-1, 1) else (1, 0), Colons(s[p + 1..]))
  {
    assert s[p..][1..] == s[p + 1..];
  }

  /** check_colons. */
  method CountColons(str: string) returns (r: int)
    ensures r == CheckColons(str)
  {
    hide Colons;
    var col, dcol: nat := 0, 0;
    var pch := Find(str, ':', 0);
    SkipToColon(str, 0, pch);
    assert str[0..] == str;
    while pch < |str|
      invariant pch <= |str| && (pch < |str| ==> str[pch] == ':')
      invariant Colons(str) == Plus((col, dcol), Colons(str[pch..]))
      decreases |str| - pch
    {
      var prv := pch;
      pch := Find(str, ':', prv + 1);
      ColonStep(str, prv);
      SkipToColon(str, prv + 1, pch);
      if pch == |str| || pch - prv != 1 {
        col := col + 1;
      } else {
        col := col - 1;
        dcol := dcol + 1;
      }
    }
    assert str[|str|..] == "";
    NoColons("");
    if dcol > 1 || (dcol == 1 && col > 5) || (dcol == 0 && col != 7) {
      return 0;
    }
    return col + dcol;
  }

  /** The next group of ipv6str_to_bytes, and the rest of the string. */
  method NextBlock(str: string) returns (ok: bool, block: string, rest: string)
    requires str != "" && IsHex(str[0])
    ensures ok == GroupLength(str).Some?
    ensures ok ==> |block| <= 4 && block == str[..GroupLength(str).value]
                   && rest == SkipColon(str[GroupLength(str).value..])
  {
    var pos := Find(str, ':', 0);
    block, rest := "", "";
    var length: nat;
    if pos < |str| {
      length := pos % 0x1_0000;
      if length > 4 {
        return false, "", "";
      }
    } else {
      length := if |str| < 4 then |str| else 4;
    }
    block, rest := str[..length], str[length..];
    if rest != "" && rest[0] == ':' {
      rest := rest[1..];
    }
    return true, block, rest;
  }

  /** `written` are the bytes read so far, `str` is the rest of the string. */
  ghost predicate ReadSoFar(s: string, written: seq<byte>, str: string) {
    && |written| % 2 == 0 && |written| <= 16
    && var rest := ToBytes(str, |written|);
       ToBytes(s, 0) == Parsed(written + rest.bytes, rest.ok)
  }

  lemma ReadStops(s: string, written: seq<byte>, str: string)
    requires ReadSoFar(s, written, str)
    requires str == "" || |written| > 15 || !IsHex(str[0]) || GroupLength(str).None?
    ensures ToBytes(s, 0) == Parsed(written, str == "")
  {
    hide GroupLength;
    assert written + [] == written;
  }

  lemma ReadStep(s: string, written: seq<byte>, str: string)
    requires ReadSoFar(s, written, str)
    requires str != "" && |written| <= 15 && IsHex(str[0]) && GroupLength(str).Some?
    ensures var n := GroupLength(str).value;
            Strtol16(str[..n]) <= 0xffff
            && ReadSoFar(s, written + Be16(Strtol16(str[..n])), SkipColon(str[n..]))
  {
    hide Strtol16, Be16, GroupLength, SkipColon;
    var n := GroupLength(str).value;
    ShortHex(str[..n]);
    var bytes := Be16(Strtol16(str[..n]));
    var more := ToBytes(SkipColon(str[n..]), |written| + 2);
    assert written + (bytes + more.bytes) == written + bytes + more.bytes;
  }

  /** ipv6str_to_bytes. */
  method StrToBytes(s: string, ip: array<byte>) returns (count: nat)
    requires ip.Length == 16
    modifies ip
    ensures count == Count(ToBytes(s, 0))
    ensures ip[..] == Patch(old(ip[..]), 0, ToBytes(s, 0).bytes)
  {
    var str, cnt: nat := s, 0;
    ghost var written: seq<byte>, before := [], ip[..];
    assert [] + ToBytes(s, 0).bytes == ToBytes(s, 0).bytes;
    hide Strtol16, Be16, GroupLength, SkipColon, ToBytes;
    while str != ""
      invariant cnt == |written| <= 16 && ReadSoFar(s, written, str)
      invariant ip[..] == Patch(before, 0, written)
      decreases 16 - cnt, |str|
    {
      if cnt > 15 || !IsHex(str[0]) {
        ReadStops(s, written, str);
        return 0;
      }
      var ok, block, rest := NextBlock(str);
      if !ok {
        ReadStops(s, written, str);
        return 0;
      }
      ReadStep(s, written, str);
      var bytes := Be16(Strtol16(block));
      Store(ip, cnt, bytes);
      PatchAppend(before, 0, written, bytes);
      written := written + bytes;
      str, cnt := rest, cnt + 2;
    }
    ReadStops(s, written, str);
    return cnt;
  }

  /** str_to_ipv6. */
  method StrToIpv6(str: string, ip: array<byte>) returns (r: nat)
    requires ip.Length == 16
    modifies ip
    ensures (ip[..], r) == Parse(str)
  {
    hide ToBytes, CheckColons, FindStr;
    Store(ip, 0, Fill(0, 16));
    assert ip[..] == Fill(0, 16);
    var colons := CountColons(str);
    if colons == 0 {
      return 0;
    }
    var ptr := FindStr(str, "::", 0);
    if ptr < |str| {
      if str == "::1" {
        ip[15] := 1;
        assert ip[..] == Fill(0, 15) + [1];
        return 16;
      }
      r := StrToHalves(str, ptr, ip);
    } else {
      r := StrToBytes(str, ip);
    }
  }

  /** The case with a "::" at `ptr`: the part behind it goes to the end of `ip`, the part before it to the
      start. */
  method StrToHalves(str: string, ptr: nat, ip: array<byte>) returns (r: nat)
    requires ip.Length == 16 && ip[..] == Fill(0, 16) && ptr < |str| && Occurs(str, "::", ptr)
    modifies ip
    ensures (ip[..], r) == ParseHalves(str, ptr)
  {
    hide ToBytes;
    var len := ptr % 0x1_0000;
    if len >= 30 {
      return 0;
    }
    var tmp := str[..len];
    var buf := new byte[16](_ => 0);
    var i := StrToBytes(str[ptr + 2..], buf);
    if i == 0 {
      return 0;
    }
    assert buf[..i] == ToBytes(str[ptr + 2..], 0).bytes;
    Store(ip, 16 - i, buf[..i]);
    var k := StrToBytes(tmp, buf);
    if k == 0 {
      return 0;
    }
    assert buf[..k] == ToBytes(tmp, 0).bytes;
    Store(ip, 0, buf[..k]);
    return i;
  }

  /** Both ways: what ipv6_to_str prints, str_to_ipv6 reads back into the result buffer. */
  method PrintAndParse(a: seq<byte>, ip: array<byte>) returns (str: string, r: nat)
    requires IsAddress(a) && ip.Length == 16
    modifies ip
    ensures str == Print(GroupsOf(a))
    ensures ip[..] == a && (r == 0 <==> Occurs(str, "::", 0) && str != "::1")
  {
    var buf := new char[TEXT_SIZE](_ => NUL);
    hide *;
    Ipv6ToStr(a, buf);
    var len := StrLen(buf, Print(GroupsOf(a)));
    StartOf(buf[..], Print(GroupsOf(a)));
    str := buf[..len];
    r := StrToIpv6(str, ip);
    ParseUndoesPrint(a);
  }
}
