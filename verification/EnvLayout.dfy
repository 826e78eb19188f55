/** The environment store of lib/libnvram/envvar.c over values: a list of "name=value" strings in an NVRAM
    partition, ended by an empty string. */
module EnvLayout {
  import opened Bytes
  import NvramLayout

  const EQUALS: byte := 0x3d

  /** No entry reaches the size of the buffer it is read into. */
  const LIMIT := 256

  datatype Entry = Entry(name: seq<byte>, value: seq<byte>)

  predicate Plain(s: seq<byte>) { forall i :: 0 <= i < |s| ==> s[i] != 0 && s[i] != EQUALS }

  /** Values may hold equals signs. */
  predicate Proper(e: Entry) {
    e.name != [] && Plain(e.name) && 0 !in e.value && |e.name| + 1 + |e.value| < LIMIT
  }

  predicate AllProper(es: seq<Entry>) { forall i :: 0 <= i < |es| ==> Proper(es[i]) }

  /** The string of an entry, without its terminator. */
  function Text(e: Entry): seq<byte> { e.name + [EQUALS] + e.value }

  const NUL: seq<byte> := [0]

  function Encode(es: seq<Entry>): seq<byte> {
    if es == [] then [] else Text(es[0]) + NUL + Encode(es[1..])
  }

  predicate Prefix(a: seq<byte>, b: seq<byte>) { |a| <= |b| && a == b[..|a|] }

  /** No name is a prefix of another one. */
  predicate Distinct(es: seq<Entry>) {
    forall i, j :: 0 <= i < |es| && 0 <= j < |es| && i != j ==> !Prefix(es[i].name, es[j].name)
  }

  /** The entry a name finds: the first one whose name starts with it. */
  function Find(es: seq<Entry>, name: seq<byte>): (r: Option<nat>)
    ensures r.Some? ==> r.value < |es| && Prefix(name, es[r.value].name)
    ensures forall i :: 0 <= i < (if r.Some? then r.value else |es|) ==> !Prefix(name, es[i].name)
  {
    if es == [] then None
    else if Prefix(name, es[0].name) then Some(0)
    else
      match Find(es[1..], name)
      case None => None
      case Some(i) => Some(i + 1)
  }

  /** A name is that of an entry, or has nothing to do with the names in the store. */
  predicate Fresh(es: seq<Entry>, name: seq<byte>) {
    forall i :: 0 <= i < |es| ==> es[i].name == name || (!Prefix(name, es[i].name) && !Prefix(es[i].name, name))
  }

  /** The part of a value up to its last equals sign: nvram_set_env looks for the equals sign from the end. */
  function Kept(value: seq<byte>): (k: seq<byte>)
    ensures |k| <= |value| && k == value[..|k|] && EQUALS !in value[|k|..]
    ensures k == [] || k[|k| - 1] == EQUALS
    ensures k == [] <==> EQUALS !in value
  {
    if value == [] || value[|value| - 1] == EQUALS then value else Kept(value[..|value| - 1])
  }

  /** An entry whose value was overwritten behind its last equals sign. */
  function Overwritten(e: Entry, value: seq<byte>): Entry { Entry(e.name, Kept(e.value) + value) }

  /** nvram_set_env: a name that finds nothing is added; otherwise the entry that it finds is changed. */
  function SetIn(es: seq<Entry>, name: seq<byte>, value: seq<byte>): seq<Entry> {
    match Find(es, name)
    case None => es + [Entry(name, value)]
    case Some(i) => if es[i].value == value then es else es[i := Overwritten(es[i], value)]
  }

  function GetIn(es: seq<Entry>, name: seq<byte>): Option<seq<byte>> {
    match Find(es, name)
    case None => None
    case Some(i) => Some(es[i].value)
  }

  // ----- what setting a variable means

  lemma FindIs(es: seq<Entry>, name: seq<byte>, i: nat)
    requires i < |es| && Prefix(name, es[i].name) && forall j :: 0 <= j < i ==> !Prefix(name, es[j].name)
    ensures Find(es, name) == Some(i)
  {
  }

  lemma FindNone(es: seq<Entry>, name: seq<byte>)
    requires forall j :: 0 <= j < |es| ==> !Prefix(name, es[j].name)
    ensures Find(es, name) == None
  {
  }

  lemma PrefixItself(name: seq<byte>)
    ensures Prefix(name, name)
  {
  }

  /** What reading any name gives behind a set: the entry that the set name found has its new value, and whatever
      finds another entry reads what it read before. */
  lemma GetBehindSet(es: seq<Entry>, name: seq<byte>, value: seq<byte>, other: seq<byte>)
    ensures var es1, f := SetIn(es, name, value), Find(es, name);
            && Find(es1, name) == Some(if f.Some? then f.value else |es|)
            && GetIn(es1, other) ==
               if Find(es, other).Some? && Find(es, other) != f then GetIn(es, other)
               else if f.Some? then (if Find(es, other) == f then Some(es1[f.value].value) else None)
               else if Prefix(other, name) then Some(value) else None
  {
    hide Prefix, Find, Kept;
    var es1 := SetIn(es, name, value);
    PrefixItself(name);
    var k := if Find(es, name).Some? then Find(es, name).value else |es|;
    assert forall i :: 0 <= i < |es1| ==> es1[i].name == if i == |es| then name else es[i].name;
    assert forall i :: 0 <= i < |es1| && i != k ==> es1[i] == es[i];
    FindIs(es1, name, k);
    if Find(es, other).Some? {
      FindIs(es1, other, Find(es, other).value);
    } else if Find(es, name).None? && Prefix(other, name) {
      FindIs(es1, other, |es|);
    } else {
      FindNone(es1, other);
    }
  }

  /** The law of the store, with its exact condition: behind a set the variable reads as the set value exactly if it
      is new, had this value, or had one without equals sign; otherwise the old value stays up to its last one. */
  lemma SetThenGet(es: seq<Entry>, name: seq<byte>, value: seq<byte>)
    ensures var f, r := Find(es, name), GetIn(SetIn(es, name, value), name);
            && (r == Some(value) <==> f.None? || es[f.value].value == value || EQUALS !in es[f.value].value)
            && (r != Some(value) ==> r == Some(Kept(es[f.value].value) + value))
  {
    hide Find, Prefix, Kept;
    GetBehindSet(es, name, value, name);
    if Find(es, name).Some? {
      var kept := Kept(es[Find(es, name).value].value);
      assert kept + value == value <==> kept == [] by {
        assert |kept + value| == |kept| + |value|;
      }
    }
  }

  /** And no variable of another name changes, exactly if the entry that the name finds is its own, or has the value
      already. */
  lemma SetChangesNoOther(es: seq<Entry>, name: seq<byte>, value: seq<byte>)
    ensures var es1, f := SetIn(es, name, value), Find(es, name);
            && |es| <= |es1|
            && ((forall i :: 0 <= i < |es| && es[i].name != name ==> es1[i] == es[i]) <==>
                f.None? || es[f.value].name == name || es1[f.value].value == es[f.value].value)
            && (forall i :: 0 <= i < |es| && Some(i) != f ==> es1[i] == es[i])
  {
    hide Find, Kept;
  }

  /** So setting "a" changes "ab" if only that is there, and setting "a" when its value is "b=1" changes the end of
      it only. */
  lemma SetsAnother()
    ensures SetIn([Entry([0x61, 0x62], [0x31])], [0x61], [0x32]) == [Entry([0x61, 0x62], [0x32])]
    ensures SetIn([Entry([0x61], [0x62, EQUALS, 0x31])], [0x61], [0x32]) == [Entry([0x61], [0x62, EQUALS, 0x32])]
  {
    var name, e, e1 := [0x61], Entry([0x61, 0x62], [0x31]), Entry([0x61], [0x62, EQUALS, 0x31]);
    assert e.name[..1] == name && e1.name[..1] == name;
    FindIs([e], name, 0);
    FindIs([e1], name, 0);
    assert Overwritten(e, [0x32]) == Entry([0x61, 0x62], [0x32]) by {
      assert EQUALS !in e.value;
    }
    assert e1.value[..2] == [0x62, EQUALS];
    assert Overwritten(e1, [0x32]) == Entry([0x61], [0x62, EQUALS, 0x32]);
  }

  /** If no name is a prefix of another one, and a new name is none and has none, every name finds its own entry,
      and this stays so. */
  lemma NamesStayApart(es: seq<Entry>, name: seq<byte>, value: seq<byte>)
    requires Distinct(es) && Fresh(es, name)
    ensures Distinct(SetIn(es, name, value))
    ensures Find(es, name).Some? ==> es[Find(es, name).value].name == name
  {
    hide Prefix, Find, Kept;
    var es1 := SetIn(es, name, value);
    assert forall i :: 0 <= i < |es1| ==> es1[i].name == if i == |es| then name else es[i].name;
  }

  // ----- the encoding

  lemma {:induction false} EncodeAppends(a: seq<Entry>, b: seq<Entry>)
    ensures Encode(a + b) == Encode(a) + Encode(b)
  {
    hide Text;
    if a == [] {
      assert a + b == b;
    } else {
      assert (a + b)[1..] == a[1..] + b && (a + b)[0] == a[0];
      EncodeAppends(a[1..], b);
    }
  }

  lemma EncodeOne(e: Entry)
    ensures Encode([e]) == Text(e) + NUL
  {
    assert [e][1..] == [];
    assert Encode([e]) == Text(e) + NUL + [];
  }

  lemma EncodeUpTo(es: seq<Entry>, k: nat)
    requires k < |es|
    ensures Encode(es[..k + 1]) == Encode(es[..k]) + (Text(es[k]) + NUL)
  {
    hide Encode, Text;
    assert es[..k + 1] == es[..k] + [es[k]];
    EncodeAppends(es[..k], [es[k]]);
    EncodeOne(es[k]);
  }

  /** The encoding around entry `k`. */
  lemma EncodeAround(es: seq<Entry>, k: nat)
    requires k < |es|
    ensures Encode(es) == Encode(es[..k]) + (Text(es[k]) + NUL) + Encode(es[k + 1..])
    ensures Encode(es[..k + 1]) == Encode(es[..k]) + (Text(es[k]) + NUL)
  {
    hide Encode, Text;
    EncodeUpTo(es, k);
    assert es == es[..k + 1] + es[k + 1..];
    EncodeAppends(es[..k + 1], es[k + 1..]);
  }

  /** In an encoding a terminator is followed by the first byte of a name. */
  predicate NoEmptyString(s: seq<byte>) {
    (s != [] ==> s[0] != 0 && s[|s| - 1] == 0) && forall i :: 0 <= i < |s| - 1 ==> s[i] != 0 || s[i + 1] != 0
  }

  lemma {:induction false} EncodesNoEmptyString(es: seq<Entry>)
    requires AllProper(es)
    ensures NoEmptyString(Encode(es))
  {
    hide Text;
    if es != [] {
      EncodesNoEmptyString(es[1..]);
      TextIsPlain(es[0]);
      JoinStrings(Text(es[0]), Encode(es[1..]));
    }
  }

  lemma TextIsPlain(e: Entry)
    requires Proper(e)
    ensures Text(e) != [] && (forall i :: 0 <= i < |Text(e)| ==> Text(e)[i] != 0) && |Text(e)| < LIMIT
  {
  }

  lemma JoinStrings(a: seq<byte>, b: seq<byte>)
    requires a != [] && (forall i :: 0 <= i < |a| ==> a[i] != 0) && NoEmptyString(b)
    ensures NoEmptyString(a + NUL + b)
  {
  }

  // ----- the store in memory

  /** The partition at `addr` with `len` bytes holds the entries and zeros, one of them at least. */
  predicate Holds(mem: seq<byte>, addr: nat, len: nat, es: seq<Entry>) {
    && addr + len <= |mem| && AllProper(es) && |Encode(es)| < len
    && mem[addr..addr + len] == Encode(es) + Fill(0, len - |Encode(es)|)
  }

  /** What the bytes of the store are. */
  lemma BytesOf(mem: seq<byte>, addr: nat, len: nat, es: seq<Entry>)
    requires Holds(mem, addr, len, es)
    ensures forall i :: addr <= i < addr + |Encode(es)| ==> mem[i] == Encode(es)[i - addr]
    ensures forall i :: addr + |Encode(es)| <= i < addr + len ==> mem[i] == 0
  {
    hide Encode;
    var w := mem[addr..addr + len];
    assert forall i :: addr <= i < addr + len ==> mem[i] == w[i - addr];
  }

  /** The string at entry `k`, or the empty string behind the last one. */
  lemma StringAt(mem: seq<byte>, addr: nat, len: nat, es: seq<Entry>, k: nat)
    requires Holds(mem, addr, len, es) && k <= |es|
    ensures var at := addr + |Encode(es[..k])|;
            if k == |es| then at == addr + |Encode(es)| && at < |mem| && mem[at] == 0
            else
              && at + |Text(es[k])| + 1 == addr + |Encode(es[..k + 1])| <= addr + |Encode(es)|
              && (forall i :: 0 <= i < |Text(es[k])| ==> mem[at + i] == Text(es[k])[i])
              && mem[at + |Text(es[k])|] == 0
  {
    hide Encode, Text, Holds;
    BytesOf(mem, addr, len, es);
    assert es[..|es|] == es;
    Bounds(mem, addr, len, es);
    if k < |es| {
      EncodeAround(es, k);
      var a, t, b := Encode(es[..k]), Text(es[k]), Encode(es[k + 1..]);
      assert forall i :: 0 <= i < |t| ==> Encode(es)[|a| + i] == t[i];
      assert Encode(es)[|a| + |t|] == 0;
    }
  }

  lemma Bounds(mem: seq<byte>, addr: nat, len: nat, es: seq<Entry>)
    requires Holds(mem, addr, len, es)
    ensures addr + len <= |mem| && AllProper(es) && |Encode(es)| < len
  {
  }

  // ----- what the memory steps do

  lemma NoEmptyStringAt(mem: seq<byte>, addr: nat, len: nat, es: seq<Entry>, i: nat)
    requires Holds(mem, addr, len, es) && addr <= i <= addr + |Encode(es)|
    ensures i < |mem|
    ensures (mem[i] == 0 && (i == addr || mem[i - 1] == 0)) <==> i == addr + |Encode(es)|
  {
    hide Encode, Holds;
    Bounds(mem, addr, len, es);
    BytesOf(mem, addr, len, es);
    EncodesNoEmptyString(es);
    var e := Encode(es);
    if addr < i < addr + |e| {
      assert e[i - 1 - addr] != 0 || e[i - 1 - addr + 1] != 0;
    }
  }

  /** A name matches the text of an entry, whatever follows it in the buffer, exactly if it starts its name. */
  lemma MatchesText(name: seq<byte>, e: Entry, buffer: seq<byte>)
    requires Proper(e) && Plain(name) && |buffer| >= |Text(e)| && buffer[..|Text(e)|] == Text(e)
    ensures Prefix(name, buffer) <==> Prefix(name, e.name)
  {
    var t, n := Text(e), |e.name|;
    assert forall i :: 0 <= i < |t| ==> buffer[i] == buffer[..|t|][i] == t[i];
    if |name| <= n {
      assert buffer[..|name|] == e.name[..|name|];
    } else if |name| <= |buffer| {
      assert name[n] != EQUALS && buffer[..|name|][n] == EQUALS;
    }
  }

  /** Writing an entry behind the others. With exactly as many free bytes as it takes, the end mark is lost. */
  lemma AppendsEntry(mem: seq<byte>, addr: nat, len: nat, es: seq<Entry>, e: Entry)
    requires Holds(mem, addr, len, es) && Proper(e)
    requires |Encode(es)| + |Text(e)| + 1 <= len
    ensures Encode(es + [e]) == Encode(es) + (Text(e) + NUL)
    ensures var mem1 := Patch(mem, addr + |Encode(es)|, Text(e));
            && (|Encode(es + [e])| < len ==> Holds(mem1, addr, len, es + [e]))
            && (|Encode(es + [e])| == len ==> mem1[addr..addr + len] == Encode(es + [e]))
  {
    hide Encode, Text, Holds;
    Bounds(mem, addr, len, es);
    BytesOf(mem, addr, len, es);
    EncodeAppends(es, [e]);
    EncodeOne(e);
    var a, t, mem1 := Encode(es), Text(e), Patch(mem, addr + |Encode(es)|, Text(e));
    var w := a + (t + NUL) + Fill(0, len - |a| - |t| - 1);
    assert mem1[addr..addr + len] == w by {
      assert forall i :: 0 <= i < len ==> mem1[addr..addr + len][i] == w[i];
    }
    HoldsAgain(mem1, addr, len, es + [e]);
    assert |Encode(es + [e])| == len ==> w == Encode(es + [e]) + [];
  }

  lemma HoldsAgain(mem: seq<byte>, addr: nat, len: nat, es: seq<Entry>)
    requires addr + len <= |mem| && AllProper(es)
    requires |Encode(es)| < len ==> mem[addr..addr + len] == Encode(es) + Fill(0, len - |Encode(es)|)
    ensures |Encode(es)| < len ==> Holds(mem, addr, len, es)
  {
  }

  /** The text of an entry up to its last equals sign. */
  function Head(e: Entry): seq<byte> { e.name + [EQUALS] + Kept(e.value) }

  /** Overwriting the value of entry `k`: the new value, its terminator and the later entries are written over the
      old ones, and what is left of those is erased. */
  lemma ReplacesValue(mem: seq<byte>, addr: nat, len: nat, es: seq<Entry>, k: nat, value: seq<byte>)
    requires Holds(mem, addr, len, es) && k < |es| && Proper(Overwritten(es[k], value))
    requires |Encode(es[k := Overwritten(es[k], value)])| < len
    ensures var es1, rest := es[k := Overwritten(es[k], value)], Encode(es[k + 1..]);
            var start, last := addr + |Encode(es[..k])| + |Head(es[k])|, addr + |Encode(es)|;
            var current := start + |value| + 1 + |rest|;
            && current == addr + |Encode(es1)|
            && Holds(NvramLayout.Erased(Patch(mem, start, value + NUL + rest), current, last - current), addr, len, es1)
  {
    hide Encode, Holds, Proper, Text, Head, Overwritten, Patch, NvramLayout.Erased, Kept;
    var e1 := Overwritten(es[k], value);
    var es1, rest, a, n := es[k := e1], Encode(es[k + 1..]), Encode(es[..k]), Head(es[k]);
    EncodeAround(es, k);
    EncodeAround(es1, k);
    assert es1[..k] == es[..k] && es1[k + 1..] == es[k + 1..];
    Regroup(a, es[k], value, rest);
    Bounds(mem, addr, len, es);
    BytesOf(mem, addr, len, es);
    var tail := es[k].value[|Kept(es[k].value)|..];
    Replaced(mem, addr, len, a + n, tail + NUL + rest, value + NUL + rest);
    assert AllProper(es1);
    var patched := Patch(mem, addr + |a + n|, value + NUL + rest);
    HoldsAgain(NvramLayout.Erased(patched, addr + |Encode(es1)|, |Encode(es)| - |Encode(es1)|), addr, len, es1);
  }

  lemma Regroup(a: seq<byte>, e: Entry, value: seq<byte>, rest: seq<byte>)
    ensures a + (Text(e) + NUL) + rest == a + Head(e) + (e.value[|Kept(e.value)|..] + NUL + rest)
    ensures a + (Text(Overwritten(e, value)) + NUL) + rest == a + Head(e) + (value + NUL + rest)
  {
    hide Kept;
    assert e.value == Kept(e.value) + e.value[|Kept(e.value)|..];
  }

  lemma Replaced(mem: seq<byte>, addr: nat, len: nat, a: seq<byte>, old1: seq<byte>, new1: seq<byte>)
    requires addr + len <= |mem| && |a| + |old1| < len && |a| + |new1| < len
    requires forall i :: addr <= i < addr + |a + old1| ==> mem[i] == (a + old1)[i - addr]
    requires forall i :: addr + |a + old1| <= i < addr + len ==> mem[i] == 0
    ensures var mem1 := NvramLayout.Erased(Patch(mem, addr + |a|, new1), addr + |a + new1|, |old1| - |new1|);
            mem1[addr..addr + len] == a + new1 + Fill(0, len - |a + new1|)
  {
    var mem1 := NvramLayout.Erased(Patch(mem, addr + |a|, new1), addr + |a + new1|, |old1| - |new1|);
    var w := a + new1 + Fill(0, len - |a + new1|);
    forall i | 0 <= i < len ensures mem1[addr..addr + len][i] == w[i] {
      assert mem1[addr..addr + len][i] == mem1[addr + i];
    }
  }
}
