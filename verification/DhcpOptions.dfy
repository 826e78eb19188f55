/** DHCP option lists over values: their encoding, what a list means, and the merge of an overloaded list
    (lib/libnet/dhcp.c; section 7 of RFC 3396). */
module DhcpOptions {
  import opened Bytes

  const PAD: byte := 0
  const END: byte := 0xff

  datatype Item = Pad | Opt(code: byte, value: seq<byte>)

  predicate Proper(i: Item) { i.Opt? ==> i.code != PAD && i.code != END && |i.value| <= 0xff }

  predicate AllProper(items: seq<Item>) { forall i :: 0 <= i < |items| ==> Proper(items[i]) }

  function EncodeItem(i: Item): (s: seq<byte>)
    requires Proper(i)
    ensures 1 <= |s| <= 0x101
  {
    match i
    case Pad => [PAD]
    case Opt(code, value) => [code, |value|] + value
  }

  function Encode(items: seq<Item>): seq<byte>
    requires AllProper(items)
  {
    if items == [] then [] else EncodeItem(items[0]) + Encode(items[1..])
  }

  /** What follows the items of a list: nothing, or an end marker and bytes without meaning. */
  predicate Ends(rest: seq<byte>) { rest == [] || rest[0] == END }

  /** The value of an option: the contents of all its occurrences, in order. */
  function Value(items: seq<Item>, code: byte): seq<byte> {
    if items == [] then []
    else (if items[0].Opt? && items[0].code == code then items[0].value else []) + Value(items[1..], code)
  }

  predicate Is(i: Item, code: byte) { i.Opt? && i.code == code }

  /** The first occurrence of an option. */
  function Find(items: seq<Item>, code: byte): (r: Option<nat>)
    ensures r.Some? ==> r.value < |items| && Is(items[r.value], code)
    ensures forall i :: 0 <= i < (if r.Some? then r.value else |items|) ==> !Is(items[i], code)
  {
    if items == [] then None
    else if Is(items[0], code) then Some(0)
    else
      match Find(items[1..], code)
      case None => None
      case Some(i) => Some(i + 1)
  }

  predicate Once(items: seq<Item>, code: byte) {
    forall i, j :: 0 <= i < |items| && 0 <= j < |items| && Is(items[i], code) && Is(items[j], code) ==> i == j
  }

  predicate Distinct(items: seq<Item>) { forall code: byte :: Once(items, code) }

  // ----- the merge

  /** One source option is combined with the first destination option of its code, or appended. */
  function AddItem(ds: seq<Item>, i: Item): seq<Item> {
    if i.Pad? then ds
    else
      match Find(ds, i.code)
      case None => ds + [i]
      case Some(k) => ds[k := Opt(i.code, ds[k].value + i.value)]
  }

  function Merge(ds: seq<Item>, ss: seq<Item>): seq<Item>
    decreases |ss|
  {
    if ss == [] then ds else Merge(AddItem(ds, ss[0]), ss[1..])
  }

  lemma {:induction false} EncodeAppends(a: seq<Item>, b: seq<Item>)
    requires AllProper(a) && AllProper(b)
    ensures AllProper(a + b) && Encode(a + b) == Encode(a) + Encode(b)
  {
    hide EncodeItem, Proper;
    if a == [] {
      assert a + b == b;
    } else {
      assert (a + b)[1..] == a[1..] + b;
      assert (a + b)[0] == a[0];
      EncodeAppends(a[1..], b);
    }
  }

  lemma EncodeOne(i: Item)
    requires Proper(i)
    ensures Encode([i]) == EncodeItem(i)
  {
    assert [i][1..] == [];
    assert Encode([i]) == EncodeItem(i) + [];
  }

  /** The encoding around item `k`. */
  lemma EncodeAround(items: seq<Item>, k: nat)
    requires AllProper(items) && k < |items|
    ensures Encode(items) == Encode(items[..k]) + EncodeItem(items[k]) + Encode(items[k + 1..])
    ensures Encode(items[..k + 1]) == Encode(items[..k]) + EncodeItem(items[k])
  {
    hide Encode, EncodeItem, Proper;
    assert items == items[..k] + [items[k]] + items[k + 1..] && items[..k + 1] == items[..k] + [items[k]];
    EncodeAppends(items[..k], [items[k]]);
    EncodeAppends(items[..k + 1], items[k + 1..]);
    EncodeOne(items[k]);
  }

  lemma {:induction false} ValueAppends(a: seq<Item>, b: seq<Item>, code: byte)
    ensures Value(a + b, code) == Value(a, code) + Value(b, code)
  {
    if a == [] {
      assert a + b == b;
    } else {
      assert (a + b)[1..] == a[1..] + b;
      ValueAppends(a[1..], b, code);
    }
  }

  lemma {:induction false} NoValue(items: seq<Item>, code: byte)
    requires forall i :: 0 <= i < |items| ==> !Is(items[i], code)
    ensures Value(items, code) == []
  {
    if items != [] { NoValue(items[1..], code); }
  }

  /** The occurrences behind the first one. */
  function Later(items: seq<Item>, code: byte): seq<byte> {
    match Find(items, code)
    case None => []
    case Some(k) => Value(items[k + 1..], code)
  }

  function First(items: seq<Item>, code: byte): seq<byte> {
    match Find(items, code)
    case None => []
    case Some(k) => items[k].value
  }

  lemma ValueSplits(items: seq<Item>, code: byte)
    ensures Value(items, code) == First(items, code) + Later(items, code)
  {
    hide Value, Is;
    match Find(items, code)
    case None => NoValue(items, code);
    case Some(k) =>
      var before, rest := items[..k], items[k + 1..];
      assert items == before + ([items[k]] + rest);
      ValueAppends(before, [items[k]] + rest, code);
      ValueAppends([items[k]], rest, code);
      NoValue(before, code);
      OneValue(items[k], code);
  }

  lemma OneValue(i: Item, code: byte)
    ensures Value([i], code) == if Is(i, code) then i.value else []
  {
    assert [i][1..] == [];
  }

  lemma FindIs(items: seq<Item>, code: byte, k: nat)
    requires k < |items| && Is(items[k], code) && forall i :: 0 <= i < k ==> !Is(items[i], code)
    ensures Find(items, code) == Some(k)
  {
  }

  lemma FindIsNone(items: seq<Item>, code: byte)
    requires forall i :: 0 <= i < |items| ==> !Is(items[i], code)
    ensures Find(items, code) == None
  {
  }

  /** Adding an item extends the first occurrence of its code; nothing else changes. */
  lemma AddItemValue(ds: seq<Item>, i: Item, code: byte)
    ensures First(AddItem(ds, i), code) == First(ds, code) + (if Is(i, code) then i.value else [])
    ensures Later(AddItem(ds, i), code) == Later(ds, code)
    ensures Once(ds, code) ==> Once(AddItem(ds, i), code)
  {
    hide Value, Find;
    var ds1 := AddItem(ds, i);
    if i.Opt? {
      if Find(ds, i.code).None? {
        AppendedValue(ds, i, code);
      } else {
        var k := Find(ds, i.code).value;
        if code == i.code {
          FindIs(ds1, code, k);
          assert ds1[k + 1..] == ds[k + 1..];
        } else {
          OtherValue(ds, k, Opt(i.code, ds[k].value + i.value), code);
        }
      }
    }
  }

  lemma FindAppended(ds: seq<Item>, i: Item, code: byte)
    ensures Find(ds + [i], code) ==
            if Find(ds, code).Some? then Find(ds, code) else if Is(i, code) then Some(|ds|) else None
  {
    hide Find, Is;
    var ds1 := ds + [i];
    assert forall j :: 0 <= j < |ds| ==> ds1[j] == ds[j];
    if Find(ds, code).Some? {
      FindIs(ds1, code, Find(ds, code).value);
    } else if Is(i, code) {
      FindIs(ds1, code, |ds|);
    } else {
      FindIsNone(ds1, code);
    }
  }

  lemma AppendedValue(ds: seq<Item>, i: Item, code: byte)
    requires i.Opt? && Find(ds, i.code).None?
    ensures First(ds + [i], code) == First(ds, code) + (if Is(i, code) then i.value else [])
    ensures Later(ds + [i], code) == Later(ds, code)
  {
    hide Value, Find, Is;
    FindAppended(ds, i, code);
    CodeOf(i, code);
    if Find(ds, code).Some? {
      AppendedLater(ds, i, code);
    } else {
      assert (ds + [i])[|ds| + 1..] == [] && (ds + [i])[|ds|] == i;
      NoValue([], code);
      assert Is(i, code) ==> [] + i.value == i.value;
    }
  }

  lemma DropAppended<T>(s: seq<T>, t: T, k: nat)
    requires k < |s|
    ensures (s + [t])[k] == s[k] && (s + [t])[k + 1..] == s[k + 1..] + [t]
  {
  }

  lemma AppendedLater(ds: seq<Item>, i: Item, code: byte)
    requires Find(ds, code).Some? && !Is(i, code)
    ensures First(ds + [i], code) == First(ds, code) + [] && Later(ds + [i], code) == Later(ds, code)
  {
    hide Value, Find, Is;
    FindAppended(ds, i, code);
    var k := Find(ds, code).value;
    var rest := ds[k + 1..];
    DropAppended(ds, i, k);
    ValueAppends(rest, [i], code);
    OneValue(i, code);
    assert Value(rest, code) + [] == Value(rest, code) && First(ds, code) + [] == First(ds, code);
  }

  lemma CodeOf(i: Item, code: byte)
    ensures Is(i, code) ==> i.Opt? && i.code == code
  {
  }

  /** Changing the contents of an option of another code. */
  lemma OtherValue(ds: seq<Item>, k: nat, i: Item, code: byte)
    requires k < |ds| && !Is(ds[k], code) && !Is(i, code)
    ensures First(ds[k := i], code) == First(ds, code) && Later(ds[k := i], code) == Later(ds, code)
  {
    hide Value;
    match Find(ds, code)
    case None => FindIsNone(ds[k := i], code);
    case Some(j) =>
      FindIs(ds[k := i], code, j);
      if k > j {
        assert ds[k := i][j + 1..] == ds[j + 1..][k - j - 1 := i];
        ValueUnchanged(ds[j + 1..], k - j - 1, i, code);
      } else {
        assert ds[k := i][j + 1..] == ds[j + 1..];
      }
  }

  lemma {:induction false} ValueUnchanged(items: seq<Item>, k: nat, i: Item, code: byte)
    requires k < |items| && !Is(items[k], code) && !Is(i, code)
    ensures Value(items[k := i], code) == Value(items, code)
    decreases k
  {
    if k > 0 {
      assert items[k := i][1..] == items[1..][k - 1 := i];
      ValueUnchanged(items[1..], k - 1, i, code);
    } else {
      assert items[k := i][1..] == items[1..];
    }
  }

  /** What a merge does to every option: all source contents, in order, come behind the first destination
      occurrence. */
  lemma {:induction false} MergedValue(ds: seq<Item>, ss: seq<Item>, code: byte)
    ensures Value(Merge(ds, ss), code) == First(ds, code) + Value(ss, code) + Later(ds, code)
    ensures Once(ds, code) ==> Once(Merge(ds, ss), code)
    decreases |ss|
  {
    hide AddItem, First, Later, Once;
    if ss == [] {
      ValueSplits(ds, code);
      assert First(ds, code) + [] == First(ds, code);
    } else {
      var v := if Is(ss[0], code) then ss[0].value else [];
      AddItemValue(ds, ss[0], code);
      MergedValue(AddItem(ds, ss[0]), ss[1..], code);
      assert Value(ss, code) == v + Value(ss[1..], code);
      assert First(ds, code) + v + Value(ss[1..], code) == First(ds, code) + (v + Value(ss[1..], code));
    }
  }

  /** The merge means what RFC 3396 asks for: an option that occurs at most once in the destination gets the
      destination contents followed by all source contents in order; and distinct codes stay distinct. */
  lemma MergeConcatenates(ds: seq<Item>, ss: seq<Item>)
    ensures forall code: byte :: Once(ds, code) ==>
                                   Value(Merge(ds, ss), code) == Value(ds, code) + Value(ss, code)
    ensures Distinct(ds) ==> Distinct(Merge(ds, ss))
  {
    hide Value, Merge, Find;
    forall code: byte | Once(ds, code)
      ensures Value(Merge(ds, ss), code) == Value(ds, code) + Value(ss, code) && Once(Merge(ds, ss), code)
    {
      MergedValue(ds, ss, code);
      ValueSplits(ds, code);
      OnceHasNoLater(ds, code);
    }
  }

  lemma OnceHasNoLater(ds: seq<Item>, code: byte)
    requires Once(ds, code)
    ensures Later(ds, code) == []
  {
    if Find(ds, code).Some? {
      var k := Find(ds, code).value;
      var later := ds[k + 1..];
      assert forall i :: 0 <= i < |later| ==> later[i] == ds[k + 1 + i] && !Is(later[i], code);
      NoValue(later, code);
    }
  }

  /** A merge never drops an item, and every merged option fits its length byte if the values do. */
  lemma {:induction false} MergeIsProper(ds: seq<Item>, ss: seq<Item>)
    requires AllProper(ds) && AllProper(ss)
    requires forall code: byte :: |Value(ds, code)| + |Value(ss, code)| <= 0xff
    ensures AllProper(Merge(ds, ss))
    ensures |Encode(Merge(ds, ss))| >= |Encode(ds)|
    decreases |ss|
  {
    hide Value, AddItem, Encode, Find;
    if ss != [] {
      assert [ss[0]] + ss[1..] == ss;
      AddItemIsProper(ds, ss[0], ss[1..]);
      MergeIsProper(AddItem(ds, ss[0]), ss[1..]);
    }
  }

  /** One step of a merge whose values fit. */
  lemma AddItemIsProper(ds: seq<Item>, i: Item, ss: seq<Item>)
    requires AllProper(ds) && Proper(i)
    requires forall code: byte :: |Value(ds, code)| + |Value([i] + ss, code)| <= 0xff
    ensures AllProper(AddItem(ds, i)) && |Encode(AddItem(ds, i))| >= |Encode(ds)|
    ensures forall code: byte :: |Value(AddItem(ds, i), code)| + |Value(ss, code)| <= 0xff
    ensures i.Opt? && Find(ds, i.code).Some? ==> |ds[Find(ds, i.code).value].value| + |i.value| <= 0xff
  {
    hide Value, Encode, Find, AddItem;
    assert ([i] + ss)[1..] == ss && ([i] + ss)[0] == i;
    forall code: byte
      ensures |Value([i] + ss, code)| == (if Is(i, code) then |i.value| else 0) + |Value(ss, code)|
    {
      OneMoreValue(i, ss, code);
    }
    if i.Opt? {
      assert |Value(ds, i.code)| + |Value([i] + ss, i.code)| <= 0xff;
      ValueSplits(ds, i.code);
      GrownEncoding(ds, i);
    } else {
      SameItems(ds, i);
    }
    forall code: byte
      ensures |Value(AddItem(ds, i), code)| + |Value(ss, code)| <= 0xff
    {
      assert |Value(ds, code)| + |Value([i] + ss, code)| <= 0xff;
      AddItemValue(ds, i, code);
      ValueSplits(ds, code);
      ValueSplits(AddItem(ds, i), code);
    }
  }

  lemma SameItems(ds: seq<Item>, i: Item)
    requires i.Pad?
    ensures AddItem(ds, i) == ds
  {
  }

  lemma OneMoreValue(i: Item, ss: seq<Item>, code: byte)
    ensures |Value([i] + ss, code)| == (if Is(i, code) then |i.value| else 0) + |Value(ss, code)|
  {
    assert ([i] + ss)[1..] == ss;
  }

  lemma GrownEncoding(ds: seq<Item>, i: Item)
    requires AllProper(ds) && Proper(i) && i.Opt?
    requires |First(ds, i.code)| + |i.value| <= 0xff
    ensures AllProper(AddItem(ds, i)) && |Encode(AddItem(ds, i))| >= |Encode(ds)|
    ensures Find(ds, i.code).Some? ==> |ds[Find(ds, i.code).value].value| + |i.value| <= 0xff
  {
    hide Encode, Find;
    var ds1 := AddItem(ds, i);
    match Find(ds, i.code)
    case None => EncodeAppends(ds, [i]);
    case Some(k) =>
      EncodeAround(ds, k);
      EncodeAround(ds1, k);
      assert ds1[..k] == ds[..k] && ds1[k + 1..] == ds[k + 1..];
  }

  // ----- reading a list

  /** The bytes a walk over `len` bytes may read: the last option may reach beyond them. */
  const SLACK := 0x101

  /** The items of a walk, and where it ended: at an end marker, at the end of the list, or beyond it if the
      last option is cut off. */
  datatype Walk = Walk(items: seq<Item>, stop: nat)

  function WalkFrom(mem: seq<byte>, len: nat, at: nat): (w: Walk)
    requires |mem| >= len + SLACK
    ensures AllProper(w.items)
    ensures w.stop < len ==> mem[w.stop] == END
    decreases len - at
  {
    if at >= len || mem[at] == END then Walk([], at)
    else
      var item := ItemAt(mem, at);
      var w := WalkFrom(mem, len, at + |EncodeItem(item)|);
      Walk([item] + w.items, w.stop)
  }

  function ItemAt(mem: seq<byte>, at: nat): (i: Item)
    requires at + SLACK <= |mem| && mem[at] != END
    ensures Proper(i) && mem[at..at + |EncodeItem(i)|] == EncodeItem(i)
  {
    if mem[at] == PAD then Pad
    else
      var n: int := mem[at + 1];
      assert mem[at..at + 2 + n] == mem[at..at + 2] + mem[at + 2..at + 2 + n] && mem[at..at + 2] == [mem[at], n];
      Opt(mem[at], mem[at + 2..at + 2 + n])
  }

  lemma WalkStops(mem: seq<byte>, len: nat, at: nat)
    requires |mem| >= len + SLACK && (at >= len || mem[at] == END)
    ensures WalkFrom(mem, len, at) == Walk([], at)
  {
  }

  lemma WalkStep(mem: seq<byte>, len: nat, at: nat)
    requires |mem| >= len + SLACK && at < len && mem[at] != END
    ensures var w, w1 := WalkFrom(mem, len, at), WalkFrom(mem, len, at + |EncodeItem(ItemAt(mem, at))|);
            w.items == [ItemAt(mem, at)] + w1.items && w.items[0] == ItemAt(mem, at) && w.items[1..] == w1.items
            && w.stop == w1.stop
  {
    hide ItemAt, EncodeItem;
  }

  lemma ItemAtIs(mem: seq<byte>, at: nat, i: Item)
    requires Proper(i) && at + SLACK <= |mem| && mem[at..at + |EncodeItem(i)|] == EncodeItem(i)
    ensures mem[at] != END && ItemAt(mem, at) == i
  {
    var w := mem[at..at + |EncodeItem(i)|];
    assert w[0] == mem[at];
    if i.Opt? {
      assert w[1] == mem[at + 1];
      assert mem[at + 2..at + 2 + |i.value|] == w[2..] == i.value;
    }
  }

  /** Walking over an encoded list gives back its items. */
  lemma {:induction false} WalkUndoesEncode(mem: seq<byte>, len: nat, at: nat, items: seq<Item>)
    requires |mem| >= len + SLACK && AllProper(items) && at + |Encode(items)| <= len
    requires mem[at..at + |Encode(items)|] == Encode(items)
    requires at + |Encode(items)| < len ==> mem[at + |Encode(items)|] == END
    ensures WalkFrom(mem, len, at) == Walk(items, at + |Encode(items)|)
    decreases |items|
  {
    hide EncodeItem, ItemAt, Proper;
    if items != [] {
      var first, rest := EncodeItem(items[0]), Encode(items[1..]);
      SplitWindow(mem, at, first, rest, |first|);
      ItemAtIs(mem, at, items[0]);
      WalkUndoesEncode(mem, len, at + |first|, items[1..]);
    }
  }
}
