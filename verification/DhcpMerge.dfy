/** The in-place merge of overloaded DHCP options (lib/libnet/dhcp.c). */
module DhcpMerge {
  import opened Bytes
  import opened DhcpOptions

  /** The size of the temporary buffer of dhcp_combine_option. */
  const TEMPORARY := 1024

  /** A destination buffer of `len` bytes holds the items, and after them nothing or an end marker. */
  ghost predicate Holds(buf: seq<byte>, len: nat, items: seq<Item>, rest: seq<byte>) {
    len <= |buf| && AllProper(items) && Ends(rest) && buf[..len] == Encode(items) + rest
  }

  /** The byte at item `k` of a buffer, or behind the last item. */
  lemma FirstByte(buf: seq<byte>, len: nat, items: seq<Item>, rest: seq<byte>, k: nat)
    requires Holds(buf, len, items, rest) && k <= |items|
    ensures len <= |buf|
    ensures var at := |Encode(items[..k])|;
            if k == |items| then
              at == |Encode(items)| && at + |rest| == len && (rest != [] ==> buf[at] == END)
            else
              && at + |EncodeItem(items[k])| == |Encode(items[..k + 1])| <= len
              && buf[at] == EncodeItem(items[k])[0]
              && (items[k].Opt? ==> buf[at + 1] == |items[k].value|)
  {
    hide Encode, Proper;
    var at := |Encode(items[..k])|;
    if k == |items| {
      assert items[..k] == items;
      assert rest != [] ==> buf[at] == buf[..len][at] == rest[0];
    } else {
      EncodeAround(items, k);
      var e := EncodeItem(items[k]);
      assert buf[..len] == Encode(items[..k]) + (e + (Encode(items[k + 1..]) + rest));
      assert buf[at] == buf[..len][at] == e[0];
      assert items[k].Opt? ==> buf[at + 1] == buf[..len][at + 1] == e[1];
    }
  }

  /** dhcp_find_option: the offset of the first occurrence, or of the end marker. */
  method FindOption(options: array<byte>, len: nat, code: byte, ghost items: seq<Item>, ghost rest: seq<byte>)
    returns (found: bool, offset: nat)
    requires Holds(options[..], len, items, rest) && code != PAD
    ensures code == END ==> found == (rest != []) && (found ==> offset == |Encode(items)|)
    ensures code != END ==> found == Find(items, code).Some?
    ensures code != END && found ==> offset == |Encode(items[..Find(items, code).value])|
    ensures !found ==> offset == 0
  {
    hide Encode, Find, Holds;
    var search := 0;
    ghost var k := 0;
    offset := 0;
    AtStart(options[..], len, items, rest);
    while search < len
      invariant k <= |items| && search == |Encode(items[..k])|
      invariant forall i :: 0 <= i < k ==> !Is(items[i], code)
      decreases |items| - k
    {
      FirstByte(options[..], len, items, rest, k);
      assert options[search] == options[..][search];
      if options[search] == code {
        if code != END { FindIs(items, code, k); }
        return true, search;
      }
      if options[search] == END {
        FindIsNone(items, code);
        return false, 0;
      }
      if options[search] == PAD {
        search := search + 1;
      } else {
        search := search + 2 + options[search + 1] as int;
      }
      k := k + 1;
    }
    found := false;
    FirstByte(options[..], len, items, rest, k);
    FindIsNone(items, code);
  }

  lemma AtStart(buf: seq<byte>, len: nat, items: seq<Item>, rest: seq<byte>)
    requires Holds(buf, len, items, rest)
    ensures len <= |buf| && AllProper(items) && |Encode(items[..0])| == 0
  {
  }

  /** dhcp_append_option. */
  method AppendOption(dst: array<byte>, len: nat, option: seq<byte>) returns (newLen: nat)
    requires |option| >= 2 && len + 2 + option[1] as int <= dst.Length && |option| >= 2 + option[1] as int
    modifies dst
    ensures dst[..] == Patch(old(dst[..]), len, option[..2 + option[1] as int])
    ensures newLen == len + 2 + option[1] as int
  {
    Store(dst, len, option[..2 + option[1] as int]);
    newLen := len + 2 + option[1] as int;
  }

  /** A list whose option at `offset` got more contents. */
  function Grown(m: seq<byte>, len: nat, offset: nat, add: seq<byte>): (r: seq<byte>)
    requires offset + 2 <= len <= |m| && offset + 2 + m[offset + 1] as int <= len
    requires m[offset + 1] as int + |add| <= 0xff
    ensures |r| == len + |add|
  {
    var n: int := m[offset + 1];
    m[..offset + 1] + [n + |add|] + m[offset + 2..offset + 2 + n] + add + m[offset + 2 + n..len]
  }

  /** dhcp_combine_option: the contents of the new option come behind those of the old one, and what follows
      moves up. */
  method CombineOption(dst: array<byte>, len: nat, offset: nat, option: seq<byte>) returns (newLen: nat)
    requires offset + 2 <= len <= dst.Length && offset + 2 + dst[offset + 1] as int <= len
    requires |option| >= 2 && |option| >= 2 + option[1] as int
    requires len + option[1] as int <= dst.Length && dst[offset + 1] as int + option[1] as int <= 0xff
    requires len - offset - 2 - dst[offset + 1] as int <= TEMPORARY
    modifies dst
    ensures newLen == len + option[1] as int
    ensures dst[..][..newLen] == Grown(old(dst[..]), len, offset, option[2..2 + option[1] as int])
  {
    hide Grown, Patch;
    var tail := len - offset - 2 - dst[offset + 1] as int;
    var add: int := option[1];
    ghost var m, n := dst[..], dst[offset + 1] as int;
    var buffer, contents := dst[len - tail..len], option[2..2 + add];
    assert buffer == m[offset + 2 + n..len] && m[offset + 1] == n;
    Store(dst, len - tail + add, buffer);
    Store(dst, len - tail, contents);
    ghost var moved := dst[..];
    assert moved[offset + 1] == n;
    dst[offset + 1] := dst[offset + 1] as int + add;
    newLen := len + add;
    ghost var sum: byte := n + add;
    assert dst[..] == moved[offset + 1 := sum];
    Moved(m, len, offset, contents);
  }

  lemma Moved(m: seq<byte>, len: nat, offset: nat, add: seq<byte>)
    requires offset + 2 <= len && len + |add| <= |m|
    requires offset + 2 + m[offset + 1] as int <= len && m[offset + 1] as int + |add| <= 0xff
    ensures var n := m[offset + 1] as int;
            var tailMoved := Patch(m, offset + 2 + n + |add|, m[offset + 2 + n..len]);
            Patch(tailMoved, offset + 2 + n, add)[offset + 1 := n + |add|][..len + |add|] == Grown(m, len, offset, add)
  {
  }

  /** What follows the destination option with which a source option is combined fits the temporary buffer. */
  predicate TailFits(ds: seq<Item>, i: Item)
    requires AllProper(ds)
  {
    i.Opt? && Find(ds, i.code).Some? ==> |Encode(ds[Find(ds, i.code).value + 1..])| <= TEMPORARY
  }

  /** So it does in every step of a merge. */
  predicate TailsFit(ds: seq<Item>, ss: seq<Item>)
    requires AllProper(ds)
    decreases |ss|
  {
    ss == [] || (TailFits(ds, ss[0]) && AllProper(AddItem(ds, ss[0])) && TailsFit(AddItem(ds, ss[0]), ss[1..]))
  }

  lemma {:induction false} ShortListsFit(ds: seq<Item>, ss: seq<Item>)
    requires AllProper(ds) && AllProper(ss) && Fits(ds, ss)
    requires AllProper(Merge(ds, ss)) && |Encode(Merge(ds, ss))| <= TEMPORARY
    ensures TailsFit(ds, ss)
    decreases |ss|
  {
    hide Value, AddItem, Encode, Find;
    if ss != [] {
      assert [ss[0]] + ss[1..] == ss;
      AddItemIsProper(ds, ss[0], ss[1..]);
      MergeIsProper(AddItem(ds, ss[0]), ss[1..]);
      if ss[0].Opt? && Find(ds, ss[0].code).Some? { EncodeAround(ds, Find(ds, ss[0].code).value); }
      ShortListsFit(AddItem(ds, ss[0]), ss[1..]);
    }
  }

  /** One option of the source list. */
  method MergeOne(dst: array<byte>, len: nat, option: seq<byte>, ghost ds: seq<Item>, ghost i: Item)
    returns (newLen: nat)
    requires Holds(dst[..], len, ds, []) && i.Opt? && Proper(i)
    requires |option| >= |EncodeItem(i)| && option[..|EncodeItem(i)|] == EncodeItem(i)
    requires AllProper(AddItem(ds, i)) && |Encode(AddItem(ds, i))| <= dst.Length && TailFits(ds, i)
    modifies dst
    ensures Holds(dst[..], newLen, AddItem(ds, i), [])
  {
    hide Encode, Holds, Grown, AddItem, AllProper, Patch;
    ghost var m := dst[..];
    OptionBytes(option, i);
    var found, offset := FindOption(dst, len, option[0], ds, []);
    if found {
      HoldsCombined(m, len, ds, i);
      TailLength(m, len, ds, i);
      newLen := CombineOption(dst, len, offset, option);
      HoldsAgain(m, len, ds, i, dst[..], newLen);
    } else {
      HoldsAppended(m, len, ds, i);
      newLen := AppendOption(dst, len, option);
    }
  }

  lemma OptionBytes(option: seq<byte>, i: Item)
    requires Proper(i) && i.Opt? && |option| >= |EncodeItem(i)| && option[..|EncodeItem(i)|] == EncodeItem(i)
    ensures |option| >= 2 + |i.value| && option[0] == i.code && option[1] == |i.value|
    ensures option[2..2 + |i.value|] == i.value && option[..2 + |i.value|] == EncodeItem(i)
  {
    var e := option[..|EncodeItem(i)|];
    assert option[0] == e[0] && option[1] == e[1] && option[2..2 + |i.value|] == e[2..];
  }

  lemma HoldsAppended(m: seq<byte>, len: nat, ds: seq<Item>, i: Item)
    requires Holds(m, len, ds, []) && i.Opt? && Proper(i) && Find(ds, i.code).None?
    requires AllProper(AddItem(ds, i)) && |Encode(AddItem(ds, i))| <= |m|
    ensures len + |EncodeItem(i)| <= |m|
    ensures Holds(Patch(m, len, EncodeItem(i)), len + |EncodeItem(i)|, AddItem(ds, i), [])
  {
    hide Encode, EncodeItem;
    EncodeAppends(ds, [i]);
    EncodeOne(i);
    assert Patch(m, len, EncodeItem(i))[..len + |EncodeItem(i)|] == m[..len] + EncodeItem(i);
  }

  lemma HoldsAgain(m: seq<byte>, len: nat, ds: seq<Item>, i: Item, m1: seq<byte>, newLen: nat)
    requires Holds(m, len, ds, []) && i.Opt? && Proper(i) && Find(ds, i.code).Some?
    requires AllProper(AddItem(ds, i)) && newLen <= |m1|
    requires m1[..newLen] == Encode(AddItem(ds, i))
    ensures Holds(m1, newLen, AddItem(ds, i), [])
  {
    hide Encode, AddItem;
    assert Encode(AddItem(ds, i)) + [] == Encode(AddItem(ds, i));
  }

  /** The list with a combined option, in terms of its items. */
  lemma HoldsCombined(m: seq<byte>, len: nat, ds: seq<Item>, i: Item)
    requires Holds(m, len, ds, []) && i.Opt? && Proper(i) && Find(ds, i.code).Some?
    requires AllProper(AddItem(ds, i)) && |Encode(AddItem(ds, i))| <= |m|
    ensures var at := |Encode(ds[..Find(ds, i.code).value])|;
            && at + 2 <= len <= |m| && at + 2 + m[at + 1] as int <= len && m[at + 1] as int + |i.value| <= 0xff
            && len + |i.value| <= |m| && Grown(m, len, at, i.value) == Encode(AddItem(ds, i))
  {
    hide Encode, Find, Grown, AddItem;
    var k := Find(ds, i.code).value;
    var v, ds1, a, b := ds[k].value, AddItem(ds, i), Encode(ds[..k]), Encode(ds[k + 1..]);
    AddedEncoding(ds, i);
    assert m[..len] == Encode(ds) + [] == Encode(ds);
    Pieces(m, len, a, i.code, v, b, i.value);
  }

  lemma TailLength(m: seq<byte>, len: nat, ds: seq<Item>, i: Item)
    requires Holds(m, len, ds, []) && i.Opt? && Find(ds, i.code).Some?
    ensures var k := Find(ds, i.code).value;
            var at := |Encode(ds[..k])|;
            at + 1 < |m| && len - at - 2 - m[at + 1] as int == |Encode(ds[k + 1..])|
  {
    hide Encode, Find;
    var k := Find(ds, i.code).value;
    FirstByte(m, len, ds, [], k);
    EncodeAround(ds, k);
    assert m[..len] == Encode(ds) + [] == Encode(ds);
  }

  lemma AddedEncoding(ds: seq<Item>, i: Item)
    requires AllProper(ds) && i.Opt? && Proper(i) && Find(ds, i.code).Some? && AllProper(AddItem(ds, i))
    ensures var k := Find(ds, i.code).value;
            var v, a, b := ds[k].value, Encode(ds[..k]), Encode(ds[k + 1..]);
            && |v| + |i.value| <= 0xff && Encode(ds) == a + ([i.code, |v|] + v) + b
            && Encode(AddItem(ds, i)) == a + ([i.code, |v| + |i.value|] + (v + i.value)) + b
  {
    hide Encode, Find;
    var k, ds1 := Find(ds, i.code).value, AddItem(ds, i);
    EncodeAround(ds, k);
    EncodeAround(ds1, k);
    assert ds1[k] == Opt(i.code, ds[k].value + i.value) && Proper(ds1[k]);
    assert ds1[..k] == ds[..k] && ds1[k + 1..] == ds[k + 1..];
  }

  lemma Pieces(m: seq<byte>, len: nat, a: seq<byte>, code: byte, v: seq<byte>, b: seq<byte>, add: seq<byte>)
    requires |v| + |add| <= 0xff && len <= |m| && m[..len] == a + ([code, |v|] + v) + b
    ensures |a| + 2 + |v| <= len && m[|a| + 1] == |v|
    ensures Grown(m, len, |a|, add) == a + ([code, |v| + |add|] + (v + add)) + b
  {
    var w := m[..len];
    assert m[|a| + 1] == w[|a| + 1];
    assert m[..|a| + 1] == w[..|a| + 1] == a + [code];
    assert m[|a| + 2..|a| + 2 + |v|] == w[|a| + 2..|a| + 2 + |v|] == v;
    assert m[|a| + 2 + |v|..len] == w[|a| + 2 + |v|..] == b;
  }

  /** dhcp_merge_options, for a merged list that fits the buffer and (which makes it well formed) the length
      bytes, and whose moved tails fit the temporary buffer. The destination, without its end marker, becomes the
      merged list; the result is true unless the last source option is cut off. */
  method MergeOptions(dst: array<byte>, len: nat, src: seq<byte>, srcLen: nat,
                      ghost ds: seq<Item>, ghost rest: seq<byte>)
    returns (ok: bool, newLen: nat)
    requires Holds(dst[..], len, ds, rest) && |src| >= srcLen + SLACK
    requires var ss := WalkFrom(src, srcLen, 0).items;
             && Fits(ds, ss) && AllProper(Merge(ds, ss)) && |Encode(Merge(ds, ss))| <= dst.Length
             && AllProper(ds) && TailsFit(ds, ss)
    modifies dst
    ensures ok == (WalkFrom(src, srcLen, 0).stop <= srcLen)
    ensures Holds(dst[..], newLen, Merge(ds, WalkFrom(src, srcLen, 0).items), [])
  {
    hide Encode, Value, AddItem, EncodeItem, Merge, WalkFrom, ItemAt, AllProper, TailsFit, TailFits;
    newLen := len;
    var found, offset := FindOption(dst, len, END, ds, rest);
    if found {
      newLen := offset;
    }
    HoldsWithoutEnd(dst[..], len, ds, rest);
    var at := 0;
    ghost var now, all := ds, Merge(ds, WalkFrom(src, srcLen, 0).items);
    while at < srcLen
      invariant Holds(dst[..], newLen, now, []) && all == Merge(now, WalkFrom(src, srcLen, at).items)
      invariant WalkFrom(src, srcLen, at).stop == WalkFrom(src, srcLen, 0).stop
      invariant Fits(now, WalkFrom(src, srcLen, at).items)
      invariant AllProper(now) && TailsFit(now, WalkFrom(src, srcLen, at).items)
    {
      if src[at] == END {
        WalkEnds(src, srcLen, at, now);
        return true, newLen;
      }
      ghost var i := ItemAt(src, at);
      MergeStep(src, srcLen, at, now);
      ItemIs(src, at, i);
      if src[at] == PAD {
        SameItems(now, i);
        at := at + 1;
      } else {
        newLen := MergeOne(dst, newLen, src[at..], now, i);
        at := at + 2 + src[at + 1] as int;
      }
      now := AddItem(now, i);
    }
    WalkEnds(src, srcLen, at, now);
    ok := at == srcLen;
  }

  /** No merged option gets longer than 255 bytes. */
  ghost predicate Fits(ds: seq<Item>, ss: seq<Item>) {
    forall code: byte :: |Value(ds, code)| + |Value(ss, code)| <= 0xff
  }

  lemma HoldsWithoutEnd(buf: seq<byte>, len: nat, ds: seq<Item>, rest: seq<byte>)
    requires Holds(buf, len, ds, rest)
    ensures |Encode(ds)| + |rest| == len && Holds(buf, |Encode(ds)|, ds, [])
  {
    hide Encode;
    assert buf[..|Encode(ds)|] == buf[..len][..|Encode(ds)|];
  }

  lemma WalkEnds(src: seq<byte>, srcLen: nat, at: nat, now: seq<Item>)
    requires |src| >= srcLen + SLACK && (at >= srcLen || src[at] == END)
    ensures WalkFrom(src, srcLen, at).stop == at && Merge(now, WalkFrom(src, srcLen, at).items) == now
  {
    WalkStops(src, srcLen, at);
  }

  /** One turn of the merge loop, in terms of the items. */
  lemma MergeStep(src: seq<byte>, srcLen: nat, at: nat, now: seq<Item>)
    requires |src| >= srcLen + SLACK && at < srcLen && src[at] != END && AllProper(now)
    requires Fits(now, WalkFrom(src, srcLen, at).items) && TailsFit(now, WalkFrom(src, srcLen, at).items)
    ensures TailFits(now, ItemAt(src, at)) && AllProper(AddItem(now, ItemAt(src, at)))
    ensures var i, w := ItemAt(src, at), WalkFrom(src, srcLen, at);
            var w1 := WalkFrom(src, srcLen, at + |EncodeItem(i)|);
            && w.stop == w1.stop && Merge(now, w.items) == Merge(AddItem(now, i), w1.items)
            && Fits(AddItem(now, i), w1.items) && TailsFit(AddItem(now, i), w1.items)
            && AllProper(AddItem(now, i)) && AllProper(Merge(now, w.items))
            && |Encode(now)| <= |Encode(Merge(now, w.items))|
            && |Encode(AddItem(now, i))| <= |Encode(Merge(now, w.items))|
  {
    hide Encode, Value, AddItem, EncodeItem, ItemAt, WalkFrom;
    WalkStep(src, srcLen, at);
    var i, w := ItemAt(src, at), WalkFrom(src, srcLen, at);
    var w1 := WalkFrom(src, srcLen, at + |EncodeItem(i)|);
    AddItemIsProper(now, i, w1.items);
    MergeIsProper(AddItem(now, i), w1.items);
    MergeIsProper(now, w.items);
  }

  lemma ItemIs(src: seq<byte>, at: nat, i: Item)
    requires at + SLACK <= |src| && src[at] != END && i == ItemAt(src, at)
    ensures src[at] == PAD ==> i.Pad? && |EncodeItem(i)| == 1
    ensures src[at] != PAD ==> i.Opt? && |EncodeItem(i)| == 2 + src[at + 1] as int
    ensures src[at..][..|EncodeItem(i)|] == EncodeItem(i) && |src[at..]| >= |EncodeItem(i)|
  {
    assert src[at..][..|EncodeItem(i)|] == src[at..at + |EncodeItem(i)|];
  }
}
