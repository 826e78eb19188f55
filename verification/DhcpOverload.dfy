/** Decoding of merged DHCP options (lib/libnet/dhcp.c): what a client reads from an overloaded message. */
module DhcpOverload {
  import opened Bytes
  import opened DhcpOptions
  import opened DhcpMessage
  import opened DhcpMerge
  import opened Dhcp

  // ----- what a merged list looks like to the decoder

  /** How often an option occurs. */
  function Count(items: seq<Item>, code: byte): nat {
    if items == [] then 0 else (if Is(items[0], code) then 1 else 0) + Count(items[1..], code)
  }

  /** An option has at least the contents the decoder reads. */
  predicate Enough(i: Item) { Sane(i) || (Is(i, CLIENT_ARCH) && |i.value| >= 2) }

  predicate AllEnough(items: seq<Item>) { forall i :: 0 <= i < |items| ==> Enough(items[i]) }

  lemma AddItemIsEnough(ds: seq<Item>, i: Item)
    requires AllEnough(ds) && Enough(i)
    ensures AllEnough(AddItem(ds, i))
  {
  }

  lemma {:induction false} MergeIsEnough(ds: seq<Item>, ss: seq<Item>)
    requires AllEnough(ds) && AllEnough(ss)
    ensures AllEnough(Merge(ds, ss))
    decreases |ss|
  {
    hide Enough, AddItem;
    if ss != [] {
      AddItemIsEnough(ds, ss[0]);
      MergeIsEnough(AddItem(ds, ss[0]), ss[1..]);
    }
  }

  lemma {:induction false} ArchLength(items: seq<Item>)
    requires AllSane(items)
    ensures |Value(items, CLIENT_ARCH)| == 2 * Count(items, CLIENT_ARCH)
  {
    if items != [] {
      assert Sane(items[0]);
      ArchLength(items[1..]);
    }
  }

  /** The contents of an option that occurs once. */
  lemma OnlyValue(items: seq<Item>, k: nat, code: byte)
    requires k < |items| && Is(items[k], code) && Once(items, code)
    ensures Value(items, code) == items[k].value
  {
    hide Value;
    ValueSplits(items, code);
    OnceHasNoLater(items, code);
    assert items[k].value + [] == items[k].value;
  }

  /** A merged list is one whose options have the contents their codes call for exactly if option 93 occurs at
      most once in both lists together. */
  lemma SaneMerge(ds: seq<Item>, ss: seq<Item>)
    requires Distinct(ds) && AllSane(ds) && AllSane(ss)
    ensures AllSane(Merge(ds, ss)) <==> Count(ds, CLIENT_ARCH) + Count(ss, CLIENT_ARCH) <= 1
    ensures forall i :: 0 <= i < |Merge(ds, ss)| && Is(Merge(ds, ss)[i], CLIENT_ARCH) ==>
                          |Merge(ds, ss)[i].value| == 2 * (Count(ds, CLIENT_ARCH) + Count(ss, CLIENT_ARCH))
  {
    hide Merge, Value, Count;
    var ms := Merge(ds, ss);
    MergeIsEnough(ds, ss);
    MergeConcatenates(ds, ss);
    ArchLength(ds);
    ArchLength(ss);
    forall i | 0 <= i < |ms| && Is(ms[i], CLIENT_ARCH)
      ensures |ms[i].value| == 2 * (Count(ds, CLIENT_ARCH) + Count(ss, CLIENT_ARCH))
    {
      OnlyValue(ms, i, CLIENT_ARCH);
    }
    if forall i :: 0 <= i < |ms| ==> !Is(ms[i], CLIENT_ARCH) {
      NoValue(ms, CLIENT_ARCH);
    } else {
      var i :| 0 <= i < |ms| && Is(ms[i], CLIENT_ARCH);
      assert Enough(ms[i]);
    }
  }

  /** The decoder reads a merged list as the list it is, and to its end, exactly if option 93 occurs at most
      once in both lists: it takes any further contents of option 93 for options. */
  lemma ReadsMergedList(mem: seq<byte>, len: nat, ds: seq<Item>, ss: seq<Item>)
    requires Distinct(ds) && AllSane(ds) && AllSane(ss) && AllProper(Merge(ds, ss))
    requires |mem| >= len + SLACK && len == 4 + |Encode(Merge(ds, ss))|
    requires mem[..len] == Magic() + Encode(Merge(ds, ss))
    ensures ReadFrom(mem, len, 4) == Walk(Merge(ds, ss), len)
            <==> Count(ds, CLIENT_ARCH) + Count(ss, CLIENT_ARCH) <= 1
  {
    hide Merge, Count, Encode, Sane, Distinct, WalkFrom, ReadFrom, Value;
    var ms := Merge(ds, ss);
    SaneMerge(ds, ss);
    assert mem[4..len] == mem[..len][4..];
    WalkUndoesEncode(mem, len, 4, ms);
    if AllSane(ms) {
      ReadsTheItems(mem, len, 4);
    } else {
      MergeIsEnough(ds, ss) by { SaneIsEnough(ds); SaneIsEnough(ss); }
      var i :| 0 <= i < |ms| && !Sane(ms[i]);
      assert Enough(ms[i]);
      assert |ms[i].value| >= 4;
    }
  }

  lemma SaneIsEnough(items: seq<Item>)
    requires AllSane(items)
    ensures AllEnough(items)
  {
  }

  /** Reading passes one option that has the contents its code calls for. */
  lemma ReadsOne(mem: seq<byte>, len: nat, at: nat, i: Item, rest: seq<byte>)
    requires Proper(i) && Sane(i) && at + |EncodeItem(i)| + |rest| <= len && |mem| >= len + SLACK
    requires mem[at..at + |EncodeItem(i)| + |rest|] == EncodeItem(i) + rest
    ensures var next := at + |EncodeItem(i)|;
            var w := ReadFrom(mem, len, next);
            ReadFrom(mem, len, at) == Walk([i] + w.items, w.stop) && mem[next..next + |rest|] == rest
  {
    hide EncodeItem, ReadFrom, Proper, Sane;
    SplitWindow(mem, at, EncodeItem(i), rest, |EncodeItem(i)|);
    ItemAtIs(mem, at, i);
    SaneIsRead(mem, at);
    ReadStep(mem, len, at);
  }

  /** Reading passes options that have the contents their codes call for. */
  lemma {:induction false} ReadsPrefix(mem: seq<byte>, len: nat, at: nat, a: seq<Item>)
    requires AllProper(a) && AllSane(a) && at + |Encode(a)| <= len && |mem| >= len + SLACK
    requires mem[at..at + |Encode(a)|] == Encode(a)
    ensures var w := ReadFrom(mem, len, at + |Encode(a)|); ReadFrom(mem, len, at) == Walk(a + w.items, w.stop)
    decreases |a|
  {
    hide EncodeItem, ReadFrom, Proper, Sane;
    if a == [] {
      assert at + |Encode(a)| == at && a + ReadFrom(mem, len, at).items == ReadFrom(mem, len, at).items;
    } else {
      ReadsOne(mem, len, at, a[0], Encode(a[1..]));
      ReadsPrefix(mem, len, at + |EncodeItem(a[0])|, a[1..]);
      var w := ReadFrom(mem, len, at + |Encode(a)|);
      assert [a[0]] + (a[1..] + w.items) == a + w.items;
    }
  }

  lemma SaneIsRead(mem: seq<byte>, at: nat)
    requires at + SLACK <= |mem| && mem[at] != END && Sane(ItemAt(mem, at))
    ensures ReadAt(mem, at) == ItemAt(mem, at)
  {
  }

  lemma ArchWindow(mem: seq<byte>, len: nat, magic: seq<byte>, a: seq<byte>, v: seq<byte>, b: seq<byte>)
    requires |magic| == 4 && 2 <= |v| <= 0xff && len <= |mem|
    requires mem[..len] == magic + a + ([CLIENT_ARCH, |v|] + v) + b
    ensures var at := 4 + |a|;
            && at + 4 <= len && mem[4..at] == a && mem[at] == CLIENT_ARCH && mem[at + 2..at + 4] == v[..2]
            && mem[at + 4..len] == v[2..] + b
  {
    var m, at := mem[..len], 4 + |a|;
    assert mem[4..at] == m[4..at];
    assert mem[at] == m[at] && mem[at + 2..at + 4] == m[at + 2..at + 4];
    assert mem[at + 4..len] == m[at + 4..];
  }

  /** What happens otherwise: of merged contents of option 93 the decoder reads the first two bytes, and goes
      on reading options at the third. */
  lemma ReadsOnInsideArch(mem: seq<byte>, len: nat, a: seq<Item>, v: seq<byte>, b: seq<Item>)
    requires AllProper(a) && AllSane(a) && AllProper(b) && 2 <= |v| <= 0xff && |mem| >= len + SLACK
    requires var arch := [Opt(CLIENT_ARCH, v)]; AllProper(a + arch + b) && mem[..len] == Magic() + Encode(a + arch + b)
    ensures var third := 4 + |Encode(a)| + 4;
            var w := ReadFrom(mem, len, third);
            && third <= len && mem[third..len] == v[2..] + Encode(b)
            && ReadFrom(mem, len, 4) == Walk(a + [Opt(CLIENT_ARCH, v[..2])] + w.items, w.stop)
  {
    hide Encode, EncodeItem, ReadFrom, Sane, Magic;
    var i, at := Opt(CLIENT_ARCH, v), 4 + |Encode(a)|;
    EncodeAppends(a, [i]);
    EncodeAppends(a + [i], b);
    EncodeOne(i);
    EncodeArch(v);
    assert Magic() + (Encode(a) + EncodeItem(i) + Encode(b)) == Magic() + Encode(a) + EncodeItem(i) + Encode(b);
    ArchWindow(mem, len, Magic(), Encode(a), v, Encode(b));
    ReadsPrefix(mem, len, 4, a);
    ReadStep(mem, len, at);
    assert ReadAt(mem, at) == Opt(CLIENT_ARCH, v[..2]);
    EncodeArch(v[..2]);
    var w := ReadFrom(mem, len, at + 4);
    assert a + ([Opt(CLIENT_ARCH, v[..2])] + w.items) == a + [Opt(CLIENT_ARCH, v[..2])] + w.items;
  }

  // ----- what the decoder makes of a list of distinct options

  /** Which options, and with what contents: present[c] and value[c] for the option with code c. */
  predicate Readable(present: seq<bool>, value: seq<seq<byte>>) {
    && |present| == |value| == 0x100
    && forall c: byte :: present[c] && c != PAD ==> Sane(Opt(c, value[c]))
  }

  /** The settings with these options. */
  function Fields(present: seq<bool>, value: seq<seq<byte>>): (s: Settings)
    requires Readable(present, value)
    ensures Shaped(s)
  {
    Settings(present, Nothing().requested,
             Word(present, value, SERVER_ID), Word(present, value, REQUESTED_IP), Word(present, value, DNS),
             Word(present, value, ROUTER), Word(present, value, MASK),
             if present[MSG_TYPE] then value[MSG_TYPE][0] else 0,
             if present[OVERLOAD] then value[OVERLOAD][0] else 0,
             if present[TFTP_SERVER] then CString(value[TFTP_SERVER]) else [],
             if present[BOOTFILE] then CString(value[BOOTFILE]) else [],
             if present[CLIENT_ARCH] then FromBe16(value[CLIENT_ARCH]) else 0)
  }

  predicate IsWord(code: byte) {
    code == SERVER_ID || code == REQUESTED_IP || code == DNS || code == ROUTER || code == MASK
  }

  function Word(present: seq<bool>, value: seq<seq<byte>>, code: byte): uint32
    requires Readable(present, value) && IsWord(code)
  {
    assert present[code] ==> Sane(Opt(code, value[code]));
    if present[code] then FromBe32(value[code][..4]) else 0
  }

  predicate Occurs(items: seq<Item>, code: byte) {
    exists i :: 0 <= i < |items| && (Is(items[i], code) || (items[i].Pad? && code == PAD))
  }

  function Present(items: seq<Item>): (s: seq<bool>)
    ensures |s| == 0x100
  {
    seq<bool>(0x100, c requires 0 <= c < 0x100 => Occurs(items, c))
  }

  function Values(items: seq<Item>): (s: seq<seq<byte>>)
    ensures |s| == 0x100
  {
    seq<seq<byte>>(0x100, c requires 0 <= c < 0x100 => Value(items, c))
  }

  /** The contents of the message type option, if there is one, name a message. */
  predicate GoodType(v: seq<byte>) { v == [] || 0 < v[0] < 9 }

  lemma StaysReadable(present: seq<bool>, value: seq<seq<byte>>, i: Item)
    requires Readable(present, value) && Sane(i)
    ensures i.Pad? ==> Readable(present[PAD := true], value)
    ensures i.Opt? ==> Readable(present[i.code := true], value[i.code := i.value])
  {
    hide Sane;
    if i.Opt? {
      var p, v := present[i.code := true], value[i.code := i.value];
      assert i == Opt(i.code, v[i.code]);
      assert forall c: byte :: c != i.code ==> p[c] == present[c] && v[c] == value[c];
    }
  }

  /** One more option, in terms of the fields. */
  lemma ReceivesField(present: seq<bool>, value: seq<seq<byte>>, i: Item)
    requires |present| == |value| == 0x100 && Readable(present, value) && Proper(i) && Sane(i)
    requires i.Opt? && Readable(present[i.code := true], value[i.code := i.value])
    ensures Receive(Fields(present, value), i) ==
            if i.code == MSG_TYPE && !GoodType(i.value) then None
            else Some(Fields(present[i.code := true], value[i.code := i.value]))
  {
    hide CString, FromBe32, FromBe16, Nothing, Readable, Word;
    WordsWith(present, value, i);
  }

  lemma WordsWith(present: seq<bool>, value: seq<seq<byte>>, i: Item)
    requires |present| == |value| == 0x100 && Readable(present, value) && Sane(i)
    requires i.Opt? && Readable(present[i.code := true], value[i.code := i.value])
    ensures IsWord(i.code) ==> |i.value| >= 4
    ensures forall c: byte :: IsWord(c) ==> Word(present[i.code := true], value[i.code := i.value], c) ==
                                            if c == i.code then FromBe32(i.value[..4]) else Word(present, value, c)
  {
    hide FromBe32, Readable;
  }

  lemma ReceivesPad(present: seq<bool>, value: seq<seq<byte>>)
    requires |present| == |value| == 0x100 && Readable(present, value) && Readable(present[PAD := true], value)
    ensures Receive(Fields(present, value), Pad) == Some(Fields(present[PAD := true], value))
  {
    hide CString, FromBe32, FromBe16, Nothing, Readable;
  }

  lemma OneMoreOption(items: seq<Item>, i: Item)
    requires Distinct(items + [i]) && Proper(i)
    ensures Distinct(items)
    ensures i.Pad? ==> Present(items + [i]) == Present(items)[PAD := true] && Values(items + [i]) == Values(items)
    ensures i.Opt? ==> Present(items + [i]) == Present(items)[i.code := true]
                       && Values(items + [i]) == Values(items)[i.code := i.value] && Value(items, i.code) == []
  {
    hide Value;
    var all := items + [i];
    assert forall j :: 0 <= j < |items| ==> all[j] == items[j];
    assert all[|items|] == i;
    forall c: byte
      ensures Value(all, c) == Value(items, c) + if Is(i, c) then i.value else []
      ensures Occurs(all, c) <==> Occurs(items, c) || Is(i, c) || (i.Pad? && c == PAD)
      ensures Once(items, c)
    {
      ValueAppends(items, [i], c);
      OneValue(i, c);
      OccursAppended(items, i, c);
      assert Once(all, c);
    }
    if i.Opt? {
      assert Once(all, i.code);
      NoValue(items, i.code);
      assert [] + i.value == i.value;
      assert forall c: byte :: c != i.code ==> Value(all, c) == Value(items, c) + [] == Value(items, c);
    } else {
      assert forall c: byte :: Value(all, c) == Value(items, c) + [] == Value(items, c);
    }
  }

  lemma OccursAppended(items: seq<Item>, i: Item, c: byte)
    ensures Occurs(items + [i], c) <==> Occurs(items, c) || Is(i, c) || (i.Pad? && c == PAD)
  {
    var all := items + [i];
    assert all[|items|] == i;
    if Occurs(items, c) {
      var j :| 0 <= j < |items| && (Is(items[j], c) || (items[j].Pad? && c == PAD));
      assert all[j] == items[j];
    }
  }

  /** A list of distinct options means the fields with their contents, or nothing if the message type is not
      one. */
  lemma {:induction false} ReceivesDistinct(items: seq<Item>)
    requires Distinct(items) && AllProper(items) && AllSane(items)
    ensures Readable(Present(items), Values(items))
    ensures ReceiveAll(Nothing(), items) ==
            if GoodType(Value(items, MSG_TYPE)) then Some(Fields(Present(items), Values(items))) else None
    decreases |items|
  {
    hide Receive, Value, Distinct, Present, Values, Fields, Nothing, ReceiveAll, Sane;
    if items == [] {
      NothingReceived();
    } else {
      var init, i := items[..|items| - 1], items[|items| - 1];
      assert items == init + [i] && Sane(i) && Proper(i);
      OneMoreOption(init, i);
      ReceivesDistinct(init);
      ReceiveAppended(Nothing(), init, i);
      StaysReadable(Present(init), Values(init), i);
      if i.Opt? {
        ReceivesField(Present(init), Values(init), i);
      } else {
        ReceivesPad(Present(init), Values(init));
      }
      TypeOf(init);
      TypeOf(items);
    }
  }

  lemma TypeOf(items: seq<Item>)
    ensures Values(items)[MSG_TYPE] == Value(items, MSG_TYPE)
  {
  }

  lemma NothingReceived()
    ensures Readable(Present([]), Values([])) && Value([], MSG_TYPE) == []
    ensures ReceiveAll(Nothing(), []) == Some(Fields(Present([]), Values([])))
  {
    assert Present([]) == Nothing().flag;
  }

  // ----- the merged options

  /** The options of a merged list: those of both; pads of the source are dropped. */
  function MergedPresent(ds: seq<Item>, ss: seq<Item>): (s: seq<bool>)
    ensures |s| == 0x100
  {
    seq<bool>(0x100, c requires 0 <= c < 0x100 => Occurs(ds, c) || (c != PAD && Occurs(ss, c)))
  }

  /** Their contents: those of the destination, then those of the source. */
  function MergedValues(ds: seq<Item>, ss: seq<Item>): (s: seq<seq<byte>>)
    ensures |s| == 0x100
  {
    seq<seq<byte>>(0x100, c requires 0 <= c < 0x100 => Value(ds, c) + Value(ss, c))
  }

  lemma AddItemOccurs(ds: seq<Item>, i: Item, code: byte)
    requires Proper(i)
    ensures Occurs(AddItem(ds, i), code) <==> Occurs(ds, code) || Is(i, code)
  {
    hide Find;
    if i.Opt? {
      match Find(ds, i.code)
      case None => OccursAppended(ds, i, code);
      case Some(k) =>
        var ds1 := AddItem(ds, i);
        assert forall j :: 0 <= j < |ds| ==> (Is(ds1[j], code) <==> Is(ds[j], code)) && (ds1[j].Pad? <==> ds[j].Pad?);
        assert Is(i, code) ==> Is(ds[k], code);
    }
  }

  lemma {:induction false} MergeOccurs(ds: seq<Item>, ss: seq<Item>, code: byte)
    requires AllProper(ss)
    ensures Occurs(Merge(ds, ss), code) <==> Occurs(ds, code) || (code != PAD && Occurs(ss, code))
    decreases |ss|
  {
    hide AddItem;
    if ss != [] {
      AddItemOccurs(ds, ss[0], code);
      MergeOccurs(AddItem(ds, ss[0]), ss[1..], code);
      var rest := ss[1..];
      assert forall j :: 0 <= j < |rest| ==> rest[j] == ss[j + 1];
      assert forall j :: 0 < j < |ss| ==> ss[j] == rest[j - 1];
    }
  }

  lemma MergedOptions(ds: seq<Item>, ss: seq<Item>)
    requires Distinct(ds) && AllProper(ss)
    ensures Present(Merge(ds, ss)) == MergedPresent(ds, ss) && Values(Merge(ds, ss)) == MergedValues(ds, ss)
  {
    hide Merge, Value, Occurs;
    MergeConcatenates(ds, ss);
    forall c: byte
      ensures Occurs(Merge(ds, ss), c) <==> Occurs(ds, c) || (c != PAD && Occurs(ss, c))
    {
      MergeOccurs(ds, ss, c);
    }
  }

  /** What a client reads from a merged list without an end marker, if option 93 occurs at most once in both
      lists: for every option the contents in the destination followed by all those in the source; nothing if
      these are no message type. */
  lemma MergeThenDecode(mem: seq<byte>, len: nat, ds: seq<Item>, ss: seq<Item>)
    requires Distinct(ds) && AllProper(ds) && AllProper(ss) && AllSane(ds) && AllSane(ss) && Fits(ds, ss)
    requires Count(ds, CLIENT_ARCH) + Count(ss, CLIENT_ARCH) <= 1
    requires AllProper(Merge(ds, ss)) && |mem| >= len + SLACK && len == 4 + |Encode(Merge(ds, ss))|
    requires mem[..len] == Magic() + Encode(Merge(ds, ss))
    ensures Readable(MergedPresent(ds, ss), MergedValues(ds, ss))
    ensures Decode(mem, len) ==
            if GoodType(Value(ds, MSG_TYPE) + Value(ss, MSG_TYPE))
            then Some(Fields(MergedPresent(ds, ss), MergedValues(ds, ss))) else None
  {
    hide Merge, Value, Occurs, Encode, Decode, ReceiveAll, Fields, Count, Nothing, Distinct, Sane;
    var ms := Merge(ds, ss);
    MergeConcatenates(ds, ss);
    SaneMerge(ds, ss);
    DecodesWithoutEnd(mem, len, ms);
    ReceivesDistinct(ms);
    MergedOptions(ds, ss);
    TypeOf(ms);
  }

  /** With option 93 in both lists decoding may fail: the second architecture is read as an option that
      reaches beyond the end. */
  lemma SecondArchIsMisread(mem: seq<byte>)
    requires |mem| >= 10 + SLACK && mem[..10] == Magic() + [CLIENT_ARCH, 4, 0, 1, 12, 0x80]
    ensures var ds, ss := [Opt(CLIENT_ARCH, [0, 1])], [Opt(CLIENT_ARCH, [12, 0x80])];
            var ms := Merge(ds, ss);
            && Distinct(ds) && AllProper(ds) && AllProper(ss) && AllSane(ds) && AllSane(ss) && Fits(ds, ss)
            && AllProper(ms) && mem[..10] == Magic() + Encode(ms) && Decode(mem, 10) == None
  {
    hide Encode, EncodeItem;
    var ds, ss := [Opt(CLIENT_ARCH, [0, 1])], [Opt(CLIENT_ARCH, [12, 0x80])];
    var m := Opt(CLIENT_ARCH, [0, 1, 12, 0x80]);
    assert ss[1..] == [] && Find(ds, CLIENT_ARCH) == Some(0);
    assert [0, 1] + [12, 0x80] == m.value;
    assert AddItem(ds, ss[0]) == [m];
    assert Merge(ds, ss) == Merge([m], ss[1..]) == [m];
    EncodeOne(m);
    EncodeArch(m.value);
    forall code: byte
      ensures |Value(ds, code)| + |Value(ss, code)| <= 4
    {
      OneValue(ds[0], code);
      OneValue(ss[0], code);
    }
    DecodesMisread(mem);
  }

  lemma EncodeArch(v: seq<byte>)
    requires |v| <= 0xff
    ensures EncodeItem(Opt(CLIENT_ARCH, v)) == [CLIENT_ARCH, |v|] + v
  {
  }

  lemma DecodesMisread(mem: seq<byte>)
    requires |mem| >= 10 + SLACK && mem[..10] == Magic() + [CLIENT_ARCH, 4, 0, 1, 12, 0x80]
    ensures Decode(mem, 10) == None
  {
    hide WithFlag, WithField, Nothing;
    var w := mem[..10];
    assert mem[4] == w[4] == CLIENT_ARCH && mem[8] == w[8] == 12 && mem[9] == w[9] == 0x80;
    var s1 := WithField(WithFlag(Nothing(), CLIENT_ARCH), mem, 4);
    assert DecodeFrom(mem, 10, 4, Nothing()) == DecodeFrom(mem, 10, 8, s1);
  }

  // ----- handling an overloaded message

  const BUFFER := 1024
  const FILE_LENGTH := 128
  const SNAME_LENGTH := 64
  const FILE: byte := 1
  const SNAME: byte := 2
  const BOTH: byte := 3

  /** The walk over the "file" or the "sname" field. */
  function FileWalk(file: seq<byte>): Walk
    requires |file| >= FILE_LENGTH + SLACK
  {
    WalkFrom(file, FILE_LENGTH, 0)
  }

  function SnameWalk(sname: seq<byte>): Walk
    requires |sname| >= SNAME_LENGTH + SLACK
  {
    WalkFrom(sname, SNAME_LENGTH, 0)
  }

  /** The options that overload the fields named by option 52. */
  function Sources(overload: byte, file: seq<byte>, sname: seq<byte>): (ss: seq<Item>)
    requires |file| >= FILE_LENGTH + SLACK && |sname| >= SNAME_LENGTH + SLACK
    ensures AllProper(ss)
  {
    (if overload == FILE || overload == BOTH then FileWalk(file).items else [])
    + (if overload == SNAME || overload == BOTH then SnameWalk(sname).items else [])
  }

  /** Option 52 names fields, and none of them cuts an option off. */
  predicate Usable(overload: byte, file: seq<byte>, sname: seq<byte>)
    requires |file| >= FILE_LENGTH + SLACK && |sname| >= SNAME_LENGTH + SLACK
  {
    && FILE <= overload <= BOTH
    && (overload != SNAME ==> FileWalk(file).stop <= FILE_LENGTH)
    && (overload != FILE ==> SnameWalk(sname).stop <= SNAME_LENGTH)
  }

  /** The merged options fit the buffer, and their contents the length bytes. */
  ghost predicate Mergeable(ds: seq<Item>, ss: seq<Item>)
    requires AllProper(ds) && AllProper(ss)
  {
    Fits(ds, ss) && AllProper(Merge(ds, ss)) && 4 + |Encode(Merge(ds, ss))| <= BUFFER
  }

  lemma {:induction false} MergeTwice(ds: seq<Item>, a: seq<Item>, b: seq<Item>)
    ensures Merge(ds, a + b) == Merge(Merge(ds, a), b)
    decreases |a|
  {
    hide AddItem;
    if a == [] {
      assert a + b == b;
    } else {
      assert (a + b)[0] == a[0] && (a + b)[1..] == a[1..] + b;
      MergeTwice(AddItem(ds, a[0]), a[1..], b);
    }
  }

  /** A merge from two sources is possible in two steps. */
  lemma MergeableTwice(ds: seq<Item>, a: seq<Item>, b: seq<Item>)
    requires AllProper(ds) && AllProper(a) && AllProper(b) && Mergeable(ds, a + b)
    ensures Mergeable(ds, a) && AllProper(Merge(ds, a)) && Mergeable(Merge(ds, a), b)
    ensures Merge(Merge(ds, a), b) == Merge(ds, a + b)
  {
    hide Merge, Value, Encode;
    MergeTwice(ds, a, b);
    forall code: byte
      ensures |Value(ds, code)| + |Value(a, code)| <= 0xff
      ensures |Value(Merge(ds, a), code)| + |Value(b, code)| <= 0xff
    {
      ValueAppends(a, b, code);
      ValueSplits(ds, code);
      MergedValue(ds, a, code);
      assert |Value(ds, code)| + |Value(a + b, code)| <= 0xff;
    }
    MergeIsProper(ds, a);
    MergeIsProper(Merge(ds, a), b);
  }

  /** What a client knows behind the second decoding: if the options are well formed and option 93 occurs at
      most once, the merged contents; and decoding fails exactly if they name no message. */
  ghost predicate DecodesMerge(ds: seq<Item>, ss: seq<Item>, ok: bool, contents: Settings) {
    Distinct(ds) && AllSane(ds) && AllSane(ss) && Count(ds, CLIENT_ARCH) + Count(ss, CLIENT_ARCH) <= 1 ==>
      && ok == GoodType(Value(ds, MSG_TYPE) + Value(ss, MSG_TYPE))
      && Readable(MergedPresent(ds, ss), MergedValues(ds, ss))
      && (ok ==> contents == Fields(MergedPresent(ds, ss), MergedValues(ds, ss)))
  }

  lemma MergeIsAllowed(ds: seq<Item>, ss: seq<Item>)
    requires AllProper(ds) && AllProper(ss) && Mergeable(ds, ss)
    ensures TailsFit(ds, ss)
  {
    hide Encode, Merge, TailsFit;
    ShortListsFit(ds, ss);
  }

  lemma VendHolds(vend: seq<byte>, len: nat, buf: seq<byte>, ds: seq<Item>, rest: seq<byte>)
    requires |vend| >= len && len <= |buf| + 4 && AllProper(ds) && Ends(rest)
    requires vend[..len] == Magic() + Encode(ds) + rest
    ensures len >= 4 && vend[..4] == Magic() && Holds(Patch(buf, 0, vend[4..len]), len - 4, ds, rest)
  {
    hide Encode;
    var m := vend[..len];
    assert m == Magic() + (Encode(ds) + rest);
    assert vend[..4] == m[..4] && vend[4..len] == m[4..] == Encode(ds) + rest;
  }

  /** The merged list in the buffer, in front of what lies behind it. */
  lemma DecodesBuffer(mem: seq<byte>, buf: seq<byte>, len: nat, ds: seq<Item>, ss: seq<Item>, contents: Settings)
    requires AllProper(ds) && AllProper(ss) && Mergeable(ds, ss) && Holds(buf, len, Merge(ds, ss), [])
    requires Magic() + buf <= mem && |mem| >= len + 4 + SLACK
    requires Decode(mem, len + 4).Some? ==> contents == Decode(mem, len + 4).value
    ensures DecodesMerge(ds, ss, Decode(mem, len + 4).Some?, contents)
  {
    hide Encode, Merge, Value, Decode, Sane, Distinct, Magic, Fits, Readable, Fields, Count;
    var ms := Merge(ds, ss);
    assert buf[..len] == Encode(ms) + [] == Encode(ms);
    assert mem[..len + 4] == (Magic() + buf)[..len + 4] == Magic() + buf[..len];
    if Distinct(ds) && AllSane(ds) && AllSane(ss) && Count(ds, CLIENT_ARCH) + Count(ss, CLIENT_ARCH) <= 1 {
      MergeThenDecode(mem, len + 4, ds, ss);
    }
  }

  /** The overload part of handle_dhcp: the options of the message are decoded; if they name overloaded
      fields, these are merged into a copy and the result is decoded again. `behind` is what lies behind the
      copy. */
  method DecodeOverloaded(opt: Options, vend: seq<byte>, len: nat, file: seq<byte>, sname: seq<byte>,
                          behind: seq<byte>, ghost ds: seq<Item>, ghost rest: seq<byte>)
    returns (ok: bool)
    requires |vend| >= len + SLACK && |file| >= FILE_LENGTH + SLACK && |sname| >= SNAME_LENGTH + SLACK
    requires |behind| >= SLACK
    requires var r := Decode(vend, len);
             r.Some? && r.value.overload != 0 ==>
               && len <= BUFFER && AllProper(ds) && Ends(rest) && vend[..len] == Magic() + Encode(ds) + rest
               && Mergeable(ds, Sources(r.value.overload, file, sname))
    modifies opt
    ensures var r := Decode(vend, len);
            && (r.None? ==> !ok)
            && (r.Some? && r.value.overload == 0 ==> ok && opt.Contents() == r.value)
            && (r.Some? && r.value.overload != 0 && !Usable(r.value.overload, file, sname) ==> !ok)
            && (r.Some? && r.value.overload != 0 && Usable(r.value.overload, file, sname) ==>
                  DecodesMerge(ds, Sources(r.value.overload, file, sname), ok, opt.Contents()))
  {
    hide Encode, Merge, Value, Decode, WalkFrom, Holds, TailsFit, DecodesMerge, Magic, Mergeable, Fits, Patch;
    ok := opt.DecodeOptions(vend, len);
    if !ok || opt.overload == 0 {
      return;
    }
    ghost var ss := Sources(opt.overload, file, sname);
    var options := new byte[BUFFER - 4];
    VendHolds(vend, len, options[..], ds, rest);
    var optLen: nat := len - 4;
    Store(options, 0, vend[4..len]);
    ok := false;
    if opt.overload == FILE {
      assert ss == FileWalk(file).items;
      ok, optLen := MergeInto(options, optLen, file, FILE_LENGTH, ds, rest);
    } else if opt.overload == SNAME {
      assert ss == SnameWalk(sname).items;
      ok, optLen := MergeInto(options, optLen, sname, SNAME_LENGTH, ds, rest);
    } else if opt.overload == BOTH {
      MergeableTwice(ds, FileWalk(file).items, SnameWalk(sname).items);
      ok, optLen := MergeInto(options, optLen, file, FILE_LENGTH, ds, rest);
      if ok {
        ok, optLen := MergeInto(options, optLen, sname, SNAME_LENGTH, Merge(ds, FileWalk(file).items), []);
      }
    }
    if !ok {
      return;
    }
    var mem := vend[..4] + options[..] + behind;
    ghost var buf := options[..];
    assert |buf| >= optLen by { LengthHeld(buf, optLen, Merge(ds, ss)); }
    ok := opt.DecodeOptions(mem, optLen + 4);
    DecodesBuffer(mem, buf, optLen, ds, ss, opt.Contents());
  }

  lemma LengthHeld(buf: seq<byte>, len: nat, items: seq<Item>)
    requires Holds(buf, len, items, [])
    ensures len <= |buf|
  {
  }

  /** dhcp_merge_options into the copy. */
  method MergeInto(dst: array<byte>, len: nat, src: seq<byte>, srcLen: nat, ghost ds: seq<Item>, ghost rest: seq<byte>)
    returns (ok: bool, newLen: nat)
    requires Holds(dst[..], len, ds, rest) && |src| >= srcLen + SLACK && dst.Length == BUFFER - 4
    requires AllProper(ds) && Mergeable(ds, WalkFrom(src, srcLen, 0).items)
    modifies dst
    ensures ok == (WalkFrom(src, srcLen, 0).stop <= srcLen)
    ensures Holds(dst[..], newLen, Merge(ds, WalkFrom(src, srcLen, 0).items), [])
  {
    hide Encode, Merge, Value, WalkFrom, Holds, TailsFit, Fits;
    MergeIsAllowed(ds, WalkFrom(src, srcLen, 0).items);
    ok, newLen := MergeOptions(dst, len, src, srcLen, ds, rest);
  }
}
