/** The shape of the addresses that lib/libnet/ipv6.c prints, and what it makes of every text form of RFC 4291,
    section 2.2 (without embedded IPv4 addresses). */
module Ipv6Forms {
  import opened Bytes
  import opened Ipv6Text
  import opened Ipv6RoundTrip

  // ----- printing

  predicate IsPair(g: Groups, k: nat) { k + 2 < |g| && g[k] == 0 && g[k + 1] == 0 }

  lemma {:induction false} FirstPair(g: Groups, k: nat)
    requires |g| == 8
    ensures match ZeroPair(g, k)
            case None => forall m: nat :: m >= k ==> !IsPair(g, m)
            case Some(i) => IsPair(g, i) && forall m: nat :: k <= m < i ==> !IsPair(g, m)
    decreases 8 - k
  {
    if k <= 5 && !IsPair(g, k) {
      FirstPair(g, k + 1);
    }
  }

  lemma {:induction false} EndOfZeros(g: Groups, j: nat)
    requires |g| == 8 && j <= 7
    ensures ZeroEnd(g, j) == 7 || g[ZeroEnd(g, j)] != 0
    decreases 7 - j
  {
    if j < 7 && g[j] == 0 {
      EndOfZeros(g, j + 1);
    }
  }

  /** The printed text: all groups if no two zero groups in a row stand in front of the last group; otherwise "::"
      stands for the first such stretch of zero groups, which ends before the last group, and the last group is
      dropped too when everything is zero. */
  lemma PrintIs(g: Groups) returns (i: nat, j: nat)
    requires |g| == 8
    ensures (forall m: nat :: !IsPair(g, m)) ==> Print(g) == Join(g)
    ensures (exists m: nat :: IsPair(g, m)) ==>
              && IsPair(g, i) && (forall m: nat :: m < i ==> !IsPair(g, m))
              && i + 2 <= j <= 7 && (forall k :: i <= k < j ==> g[k] == 0) && (j == 7 || g[j] != 0)
              && Print(g) == if i == 0 && j == 7 && g[7] == 0 then "::" else Join(g[..i]) + "::" + Join(g[j..])
  {
    hide Join;
    i, j := 0, 0;
    FirstPair(g, 0);
    match ZeroPair(g, 0)
    case None =>
    case Some(first) =>
      i, j := first, ZeroEnd(g, first + 2);
      EndOfZeros(g, i + 2);
      LastGroup(g, j);
      if j == 7 && g[7] == 0 {
        assert g[7..] == [0];
        JoinUnfolds([0]);
        TextShape(0);
      }
  }

  /** Digits are printed in lower case. */
  lemma TextIsLower(v: uint16)
    ensures forall c :: c in Text(v) ==> '0' <= c <= '9' || 'a' <= c <= 'f'
  {
  }

  // ----- parsing

  /** Positions at which `t` occurs in `s`. */
  function Occurrences(s: string, t: string): nat {
    if s == "" then 0 else (if Occurs(s, t, 0) then 1 else 0) + Occurrences(s[1..], t)
  }

  lemma {:induction false} ColonsAre(s: string)
    ensures Colons(s) == (Occurrences(s, ":") - 2 * Occurrences(s, "::"), Occurrences(s, "::"))
  {
    if s != "" {
      ColonsAre(s[1..]);
      assert Occurs(s, ":", 0) <==> s[0] == ':' by {
        if s[0] == ':' { assert s[0..1] == ":"; }
      }
      assert Occurs(s, "::", 0) <==> |s| > 1 && s[0] == ':' && s[1] == ':' by {
        if |s| > 1 && s[0] == ':' && s[1] == ':' { assert s[0..2] == "::"; }
        if Occurs(s, "::", 0) { assert s[0] == s[0..2][0] && s[1] == s[0..2][1]; }
      }
    }
  }

  /** check_colons accepts seven colons without "::", or at most seven with one "::". */
  lemma CheckColonsIs(s: string)
    ensures CheckColons(s) != 0 <==>
            var n, d := Occurrences(s, ":"), Occurrences(s, "::");
            (d == 0 && n == 7) || (d == 1 && n <= 7)
  {
    ColonsAre(s);
    DoubleIsTwo(s);
  }

  lemma {:induction false} DoubleIsTwo(s: string)
    ensures Occurrences(s, "::") > 0 ==> Occurrences(s, ":") >= Occurrences(s, "::") + 1
    ensures s != "" && s[0] == ':' ==> Occurrences(s, ":") >= Occurrences(s, "::") + 1
  {
    if s != "" {
      DoubleIsTwo(s[1..]);
      if s[0] == ':' { assert s[0..1] == ":"; }
      if Occurs(s, "::", 0) {
        assert s[0] == s[0..2][0] && s[1] == s[0..2][1];
      }
    }
  }

  /** One to four hexadecimal digits of either case. */
  predicate IsGroup(t: string) { 1 <= |t| <= 4 && AllHex(t) }

  predicate AreGroups(ts: seq<string>) { forall i :: 0 <= i < |ts| ==> IsGroup(ts[i]) }

  function Colonized(ts: seq<string>): string {
    if ts == [] then "" else if |ts| == 1 then ts[0] else ts[0] + ([':'] + Colonized(ts[1..]))
  }

  /** The value of a hexadecimal numeral. */
  function Value(t: string): nat
    requires AllHex(t)
  {
    if t == "" then 0 else 16 * Value(t[..|t| - 1]) + DigitValue(t[|t| - 1])
  }

  lemma {:induction false} DigitsGiveValue(t: string, c: char, acc: nat)
    requires AllHex(t) && IsHex(c)
    ensures HexDigits(t + [c], acc) == 16 * HexDigits(t, acc) + DigitValue(c)
  {
    if t == "" {
      assert (t + [c])[1..] == "";
    } else {
      assert (t + [c])[1..] == t[1..] + [c];
      DigitsGiveValue(t[1..], c, 16 * acc + DigitValue(t[0]));
    }
  }

  lemma {:induction false} ReadsValue(t: string)
    requires AllHex(t)
    ensures Strtol16(t) == HexDigits(t, 0) == Value(t)
  {
    assert !IsHex('x');
    if t != "" {
      var n := |t| - 1;
      ReadsValue(t[..n]);
      DigitsGiveValue(t[..n], t[n], 0);
      assert t[..n] + [t[n]] == t;
    }
  }

  lemma GroupValue(t: string)
    requires IsGroup(t)
    ensures Strtol16(t) == Value(t) <= 0xffff
  {
    ReadsValue(t);
    ShortHex(t);
  }

  function BytesOfTexts(ts: seq<string>): (b: seq<byte>)
    requires AreGroups(ts)
    ensures |b| == 2 * |ts|
  {
    if ts == [] then []
    else
      assert IsGroup(ts[0]);
      GroupValue(ts[0]);
      Be16(Value(ts[0])) + BytesOfTexts(ts[1..])
  }

  lemma {:induction false} ColonizedShape(ts: seq<string>)
    requires AreGroups(ts)
    ensures ts == [] <==> Colonized(ts) == ""
    ensures ts != [] ==> Plain(Colonized(ts)) && IsHex(Colonized(ts)[0])
    ensures Colons(Colonized(ts)) == (if ts == [] then 0 else |ts| - 1, 0)
    ensures |Colonized(ts)| <= 5 * |ts| && (ts != [] ==> |Colonized(ts)| <= 5 * |ts| - 1)
  {
    hide Colons;
    NoColons("");
    if ts != [] {
      assert IsGroup(ts[0]);
      NoColons(ts[0]);
      if |ts| > 1 {
        ColonizedShape(ts[1..]);
        Glue(ts[0], Colonized(ts[1..]));
      }
    }
  }

  /** Any groups separated by single colons read as their values. */
  lemma {:induction false} ReadsTexts(ts: seq<string>, cnt: nat)
    requires AreGroups(ts) && cnt % 2 == 0 && cnt + 2 * |ts| <= 16
    ensures ToBytes(Colonized(ts), cnt) == Parsed(BytesOfTexts(ts), true)
  {
    hide ToBytes, Be16, Strtol16, Value, IsHex, AllHex;
    NoGroups(cnt);
    if ts != [] {
      assert IsGroup(ts[0]);
      var rest := if |ts| == 1 then "" else [':'] + Colonized(ts[1..]);
      assert Colonized(ts) == ts[0] + rest;
      ReadsText(ts[0], rest, cnt);
      if |ts| == 1 {
        NoGroups(cnt + 2);
        assert ts[1..] == [];
      } else {
        assert SkipColon(rest) == Colonized(ts[1..]);
        ReadsTexts(ts[1..], cnt + 2);
      }
    }
  }

  lemma ReadsText(t: string, rest: string, cnt: nat)
    requires IsGroup(t) && cnt % 2 == 0 && cnt <= 14 && (rest == "" || rest[0] == ':')
    ensures Value(t) <= 0xffff
    ensures var more := ToBytes(SkipColon(rest), cnt + 2);
            ToBytes(t + rest, cnt) == Parsed(Be16(Value(t)) + more.bytes, more.ok)
  {
    hide Strtol16, GroupLength, SkipColon, Be16, AllHex, IsHex, Value;
    FirstGroup(t, rest);
    GroupValue(t);
  }

  /** Eight groups, in any spelling, are parsed as the address. */
  lemma ParsesFullForm(ts: seq<string>)
    requires AreGroups(ts) && |ts| == 8
    ensures Parse(Colonized(ts)) == (BytesOfTexts(ts), 16)
  {
    hide ToBytes, BytesOfTexts, Colons, Colonized;
    var s := Colonized(ts);
    ColonizedShape(ts);
    FindsNoDouble(s);
    ReadsTexts(ts, 0);
    assert Patch(Fill(0, 16), 0, BytesOfTexts(ts)) == BytesOfTexts(ts);
  }

  /** The address that a text "top::bottom" stands for. */
  function Denoted(top: seq<string>, bottom: seq<string>): (a: seq<byte>)
    requires AreGroups(top) && AreGroups(bottom) && |top| + |bottom| <= 7
    ensures |a| == 16
  {
    BytesOfTexts(top) + Fill(0, 16 - 2 * |top| - 2 * |bottom|) + BytesOfTexts(bottom)
  }

  lemma ColonsAround(top: seq<string>, bottom: seq<string>)
    requires AreGroups(top) && AreGroups(bottom) && |top| + |bottom| <= 7
    ensures CheckColons(Colonized(top) + "::" + Colonized(bottom)) != 0 <==> |top| <= 6 && |bottom| <= 6
  {
    hide Colons, Colonized;
    var a, b := Colonized(top), Colonized(bottom);
    ColonizedShape(top);
    ColonizedShape(bottom);
    DoubleBefore(b);
    ColonsAppend(a, [':', ':'] + b);
    assert a + ([':', ':'] + b) == a + "::" + b;
  }

  /** The two halves of a compressed form. */
  lemma Halves(top: seq<string>, bottom: seq<string>)
    requires AreGroups(top) && AreGroups(bottom) && |top| <= 6
    ensures var a, b := Colonized(top), Colonized(bottom);
            var s := a + "::" + b;
            FindStr(s, "::", 0) == |a| < 30 && |a| + 2 <= |s| && s[..|a|] == a && s[|a| + 2..] == b
  {
    hide Colonized, AreGroups, FindStr;
    ColonizedShape(top);
    FindsDouble(Colonized(top), Colonized(bottom));
  }

  lemma ParseSplits(s: string, p: nat)
    requires FindStr(s, "::", 0) == p && p + 2 <= |s|
    ensures Parse(s) == if CheckColons(s) == 0 then (Fill(0, 16), 0)
                        else if s == "::1" then (Fill(0, 15) + [1], 16) else ParseHalves(s, p)
  {
    hide CheckColons, ParseHalves, FindStr;
  }

  /** What a compressed form leaves in the result buffer, and the return value. */
  lemma CompressedResult(top: seq<string>, bottom: seq<string>)
    requires AreGroups(top) && AreGroups(bottom) && |top| + |bottom| <= 7
    ensures var s := Colonized(top) + "::" + Colonized(bottom);
            Parse(s) ==
            if |top| == 7 || |bottom| == 7 then (Fill(0, 16), 0)
            else if s == "::1" then (Fill(0, 15) + [1], 16)
            else if bottom == [] then (Fill(0, 16), 0)
            else (Denoted(top, bottom), if top == [] then 0 else 2 * |bottom|)
  {
    hide ToBytes, BytesOfTexts, Colonized, ParseHalves, CheckColons, Fill, FindStr, Parse, AreGroups;
    var a, b := Colonized(top), Colonized(bottom);
    var s := a + "::" + b;
    ColonsAround(top, bottom);
    if |top| == 7 || |bottom| == 7 {
      Rejected(s);
    } else {
      Halves(top, bottom);
      ParseSplits(s, |a|);
      ReadsTexts(top, 0);
      ReadsTexts(bottom, 0);
      HalvesCombine(s, |a|, BytesOfTexts(top), BytesOfTexts(bottom));
    }
  }

  lemma Rejected(s: string)
    requires CheckColons(s) == 0
    ensures Parse(s) == (Fill(0, 16), 0)
  {
    hide CheckColons;
  }

  /** Parsing of a compressed form: the address is stored exactly if there are groups behind the "::", but not
      seven (or if it is the zero address, which the result starts as); the return value is nonzero only
      with groups on both sides, and for "::1". */
  lemma ParsesCompressedForm(top: seq<string>, bottom: seq<string>)
    requires AreGroups(top) && AreGroups(bottom) && |top| + |bottom| <= 7
    ensures var s := Colonized(top) + "::" + Colonized(bottom);
            && (Parse(s).0 == Denoted(top, bottom) <==>
                1 <= |bottom| <= 6 || Denoted(top, bottom) == Fill(0, 16))
            && (Parse(s).1 != 0 <==> (top != [] && bottom != []) || s == "::1")
  {
    hide Parse, Denoted, Colonized, Fill, AllHex;
    CompressedResult(top, bottom);
    if Colonized(top) + "::" + Colonized(bottom) == "::1" {
      OnlyOne(top, bottom);
    }
  }

  lemma OnlyOne(top: seq<string>, bottom: seq<string>)
    requires AreGroups(top) && AreGroups(bottom) && |top| + |bottom| <= 7
    requires Colonized(top) + "::" + Colonized(bottom) == "::1"
    ensures top == [] && |bottom| == 1 && Denoted(top, bottom) == Fill(0, 15) + [1]
  {
    var a, b := Colonized(top), Colonized(bottom);
    var s := a + "::" + b;
    ColonizedShape(top);
    FindsDouble(a, b);
    assert s[0..2] == "::";
    assert |a| == 0;
    assert b == s[2..] == "1";
    ColonizedShape(bottom);
    assert |bottom| == 1 && bottom[0] == "1";
    assert Value("1") == 1;
    assert bottom[1..] == [];
    assert Fill(0, 14) + Be16(1) == Fill(0, 15) + [1];
  }
}
