/** The effect of the partition operations of lib/libnvram/nvram.c on a partition table, and what their
    memory steps do to its image. */
module NvramTable {
  import opened Bytes
  import opened NvramLayout

  // ----- table operations

  /** The units a partition with `len` bytes of contents takes. */
  function UnitsFor(len: nat): (u: nat)
    ensures u >= 1 && 16 * (u - 1) < len + HEADER <= 16 * u
  {
    (len + 31) / 16
  }

  /** new_nvram_partition: the partition goes where the free one was, and what is left of it stays free. A
      free partition that consists of its header only is not given away. */
  function NewIn(t: Table, kind: byte, name: seq<byte>, len: nat): (Table, Handle)
    requires Valid(t) && IsName(name) && kind != 0
  {
    var u := UnitsFor(len);
    if u <= t.free && t.free >= 2 then
      (Table(t.used + [NewPartition(kind, name, u)], t.free - u), Handle(|EncodeAll(t.used)| + HEADER, len))
    else (t, Handle(0, 0))
  }

  lemma NewIsValid(t: Table, kind: byte, name: seq<byte>, len: nat)
    requires Valid(t) && IsName(name) && kind != 0 && kind != FREE_KIND
    ensures Valid(NewIn(t, kind, name, len).0)
    ensures |Image(NewIn(t, kind, name, len).0)| == |Image(t)|
  {
    if NewIn(t, kind, name, len).0 != t {
      var p := NewPartition(kind, name, UnitsFor(len));
      EncodeAppends(t.used, [p]);
      OneChain(p);
    }
  }

  lemma OneChain(p: Partition)
    requires WellFormed(p)
    ensures EncodeAll([p]) == Encode(p) && |Encode(p)| == 16 * Units(p)
  {
    assert [p][1..] == [];
    assert EncodeAll([p]) == Encode(p) + [];
  }

  // ----- memory steps on images

  /** Partitions followed by `units` units of zeros. */
  function Chain(ps: seq<Partition>, units: nat): (s: seq<byte>)
    requires AllWellFormed(ps)
    ensures |s| == |EncodeAll(ps)| + 16 * units
  {
    EncodeAll(ps) + Fill(0, 16 * units)
  }

  lemma UsedSpaceOf(ps: seq<Partition>, units: nat)
    requires AllWellFormed(ps)
    ensures UsedSpace(Chain(ps, units), 0) == |EncodeAll(ps)|
  {
    var mem := Chain(ps, units);
    assert mem[0..|EncodeAll(ps)|] == EncodeAll(ps);
    UsedSpaceOfChain(mem, 0, ps);
  }

  lemma CreatedAt(mem: seq<byte>, used: nat, kind: byte, name: seq<byte>, len: nat)
    requires UsedSpace(mem, 0) == used <= |mem| < 0x1_0000_0000 && len + 31 < 0x1_0000_0000
    ensures Created(mem, kind, name, len) ==
            if 16 * UnitsFor(len) > |mem| - used then (mem, Handle(0, 0))
            else (WriteHeader(mem, used, kind, UnitsFor(len) % 0x1_0000, name), Handle(used + HEADER, len))
  {
    hide UsedSpace, WriteHeader, PaddedLength, UnitsFor;
    PaddedUnits(len);
    Wraps(|mem| - used);
  }

  lemma PaddedUnits(len: uint32)
    requires len + 31 < 0x1_0000_0000
    ensures PaddedLength(len) == 16 * UnitsFor(len) && PaddedLength(len) / 16 == UnitsFor(len)
  {
  }

  lemma Wraps(x: int)
    requires 0 <= x < 0x1_0000_0000
    ensures x % 0x1_0000_0000 == x
  {
  }

  lemma AppendToChain(ps: seq<Partition>, units: nat, kind: byte, name: seq<byte>, u: nat)
    requires AllWellFormed(ps) && kind != 0 && |name| <= 12 && 1 <= u <= units && u <= 0xffff
    ensures var p := NewPartition(kind, name, u);
            AllWellFormed(ps + [p])
            && WriteHeader(Chain(ps, units), |EncodeAll(ps)|, kind, u, name) == Chain(ps + [p], units - u)
  {
    hide Encode, Header, WriteHeader, NewPartition;
    var p, mem, end := NewPartition(kind, name, u), Chain(ps, units), |EncodeAll(ps)|;
    assert PadIsZero(mem, end, name);
    WritesHeader(mem, end, kind, name, u);
    EncodeAppends(ps, [p]);
    OneChain(p);
    HeaderThenZeros(ps, units, kind, name, u);
  }

  /** Creating a partition in a chain with zeros behind it: it is appended, or nothing happens. */
  lemma CreatedInChain(ps: seq<Partition>, units: nat, kind: byte, name: seq<byte>, len: nat)
    requires AllWellFormed(ps) && |EncodeAll(ps)| + 16 * units < 0x1_0000_0000
    requires UnitsFor(len) <= 0xffff || UnitsFor(len) > units
    requires kind != 0 && IsName(name) && len + 31 < 0x1_0000_0000
    ensures var u := UnitsFor(len);
            var (mem, h) := Created(Chain(ps, units), kind, name, len);
            if u <= units then
              var p := NewPartition(kind, name, u);
              && AllWellFormed(ps + [p]) && mem == Chain(ps + [p], units - u)
              && h == Handle(|EncodeAll(ps)| + HEADER, len)
            else mem == Chain(ps, units) && h == Handle(0, 0)
  {
    hide Encode, Header, UsedSpace, WriteHeader, NewPartition, Created, EncodeAll;
    UsedSpaceOf(ps, units);
    CreatedAt(Chain(ps, units), |EncodeAll(ps)|, kind, name, len);
    if UnitsFor(len) <= units {
      AppendToChain(ps, units, kind, name, UnitsFor(len));
    }
  }

  lemma HeaderThenZeros(ps: seq<Partition>, units: nat, kind: byte, name: seq<byte>, u: nat)
    requires AllWellFormed(ps) && kind != 0 && |name| <= 12 && 1 <= u <= units && u <= 0xffff
    ensures var p, rest := NewPartition(kind, name, u), Fill(0, 16 * (units - u));
            Patch(Chain(ps, units), |EncodeAll(ps)|, Header(p)) == EncodeAll(ps) + Encode(p) + rest
  {
    hide Header;
  }

  /** create_free_partition: the new memory and the handle. */
  function FreeCreated(mem: seq<byte>): (seq<byte>, Handle) {
    Created(mem, FREE_KIND, FreeName()[..10], (|mem| - UsedSpace(mem, 0) - HEADER) % 0x1_0000_0000)
  }

  /** create_free_partition on such a chain restores an image. */
  lemma FreeInChain(ps: seq<Partition>, units: nat)
    requires AllWellFormed(ps) && units <= 0xffff && |EncodeAll(ps)| + 16 * units < 0x1_0000_0000
    ensures var mem := Chain(ps, units);
            FreeCreated(mem).0 == EncodeAll(ps) + FreeImage(units)
  {
    hide Encode, EncodeAll, UsedSpace, WriteHeader, Created, PaddedLength;
    UsedSpaceOf(ps, units);
    var name := FreeName()[..10];
    if units == 0 {
      NothingToFree(Chain(ps, 0), name);
      assert EncodeAll(ps) + Fill(0, 0) == EncodeAll(ps) + [];
    } else {
      CreatedInChain(ps, units, FREE_KIND, name, 16 * units - HEADER);
      FreeNamePadded();
      var p := FreePartition(units);
      EncodeAppends(ps, [p]);
      OneChain(p);
      assert EncodeAll(ps) + Encode(p) + Fill(0, 0) == EncodeAll(ps) + Encode(p);
    }
  }

  lemma FreeNamePadded()
    ensures Pad(FreeName()[..10]) == FreeName() && IsName(FreeName()[..10])
  {
  }

  /** More than 0xffff free units do not fit a header. The free partition then gets a length that is too
      short, or 0, and the headers do not tile the memory. */
  lemma FreeTooLong(ps: seq<Partition>, units: nat, tail: seq<byte>)
    requires AllWellFormed(ps) && units > 0xffff && |tail| == 32
    requires |EncodeAll(ps)| + 16 * units < 0x1_0000_0000
    ensures var mem := EncodeAll(ps) + Fill(0, 16 * units - 32) + tail;
            UsedSpace(FreeCreated(mem).0, 0) == |EncodeAll(ps)| + 16 * (units % 0x1_0000) < |mem|
  {
    hide Encode, EncodeAll, Header, UsedSpace, WriteHeader, Created, PaddedLength, Patch, Pad, UnitsFor;
    var end, name, u := |EncodeAll(ps)|, FreeName()[..10], units % 0x1_0000;
    var mem := EncodeAll(ps) + Fill(0, 16 * units - 32) + tail;
    assert mem[0..end] == EncodeAll(ps) && mem[end] == 0 && PadIsZero(mem, end, name);
    UsedSpaceOfChain(mem, 0, ps);
    CreatedAt(mem, end, FREE_KIND, name, 16 * units - HEADER);
    UnitsOf(units);
    if u == 0 {
      NoFreeLength(mem, ps, name);
    } else {
      ShortFreeLength(ps, units, tail);
    }
  }

  lemma NoFreeLength(mem: seq<byte>, ps: seq<Partition>, name: seq<byte>)
    requires AllWellFormed(ps) && |EncodeAll(ps)| < |mem| && mem[..|EncodeAll(ps)|] == EncodeAll(ps)
    requires PadIsZero(mem, |EncodeAll(ps)|, name)
    ensures UsedSpace(WriteHeader(mem, |EncodeAll(ps)|, FREE_KIND, 0, name), 0) == |EncodeAll(ps)|
  {
    hide EncodeAll, UsedSpace, WriteHeader;
    var made := WriteHeader(mem, |EncodeAll(ps)|, FREE_KIND, 0, name);
    WritesLengthZero(mem, |EncodeAll(ps)|, FREE_KIND, name);
    assert made[0..|EncodeAll(ps)|] == EncodeAll(ps);
    UsedSpaceOfChain(made, 0, ps);
  }

  lemma ShortFreeLength(ps: seq<Partition>, units: nat, tail: seq<byte>)
    requires AllWellFormed(ps) && units > 0xffff && |tail| == 32 && units % 0x1_0000 != 0
    ensures var u, mem := units % 0x1_0000, EncodeAll(ps) + Fill(0, 16 * units - 32) + tail;
            UsedSpace(WriteHeader(mem, |EncodeAll(ps)|, FREE_KIND, u, FreeName()[..10]), 0) == |EncodeAll(ps)| + 16 * u
  {
    hide Encode, EncodeAll, Header, UsedSpace, WriteHeader, Patch, Pad;
    var end, name, u := |EncodeAll(ps)|, FreeName()[..10], units % 0x1_0000;
    var mem := EncodeAll(ps) + Fill(0, 16 * units - 32) + tail;
    assert PadIsZero(mem, end, name);
    WritesHeader(mem, end, FREE_KIND, name, u);
    FreeNamePadded();
    FreeEncoded(u);
    OneChain(FreePartition(u));
    EncodeAppends(ps, [FreePartition(u)]);
    ShortFree(EncodeAll(ps), Header(FreePartition(u)), u, 16 * units - 32, tail);
    UsedSpaceOfChain(WriteHeader(mem, end, FREE_KIND, u, name), 0, ps + [FreePartition(u)]);
  }

  lemma FreeEncoded(u: nat)
    requires 1 <= u <= 0xffff
    ensures Encode(FreePartition(u)) == Header(FreePartition(u)) + Fill(0, 16 * u - HEADER)
  {
  }

  lemma ShortFree(e: seq<byte>, h: seq<byte>, u: nat, zeros: nat, tail: seq<byte>)
    requires |h| == HEADER && 1 <= u && 16 * u < zeros
    ensures var made := Patch(e + Fill(0, zeros) + tail, |e|, h);
            && made[0..|e| + 16 * u] == e + (h + Fill(0, 16 * u - HEADER))
            && made[|e| + 16 * u] == 0
  {
  }

  lemma WritesLengthZero(mem: seq<byte>, off: nat, kind: byte, name: seq<byte>)
    requires PadIsZero(mem, off, name)
    ensures var made := WriteHeader(mem, off, kind, 0, name);
            WordAt(made, off + 2) == 0 && made[..off] == mem[..off]
  {
    hide ChecksumAt, WriteBytesAt, Pad;
    var plain := [kind, mem[off + 1]] + Be16(0) + Pad(name);
    WritesPlainHeader(mem, off, kind, name, 0);
    var m := Patch(mem, off, plain);
    assert m[off + 2..off + 4] == plain[2..4] == [0, 0];
    var made := WriteByteAt(m, off + 1, ChecksumAt(m, off));
    assert made[off + 2..off + 4] == m[off + 2..off + 4];
  }

  lemma UnitsOf(u: nat)
    requires u >= 1
    ensures UnitsFor(u * 16 - HEADER) == u
  {
  }

  /** In a full memory the length of the free partition wraps to a padded length of 0, and its header is
      written behind the end. */
  lemma NothingToFree(mem: seq<byte>, name: seq<byte>)
    requires UsedSpace(mem, 0) == |mem| < 0x1_0000_0000
    ensures Created(mem, FREE_KIND, name, 0x1_0000_0000 - HEADER).0 == mem
  {
    hide UsedSpace, WriteHeader;
    assert PaddedLength(0x1_0000_0000 - HEADER) == 0;
    NoHeaderOutside(mem, FREE_KIND, 0, name);
  }

  /** The memory in which new_nvram_partition creates the partition. */
  function Wiped(t: Table): seq<byte>
    requires Valid(t)
  {
    if t.free >= 2 then Erased(Image(t), |EncodeAll(t.used)|, HEADER) else Image(t)
  }

  /** The memory steps of new_nvram_partition implement the table operation. */
  lemma NewSteps(t: Table, kind: byte, name: seq<byte>, len: nat)
    requires Valid(t) && |Image(t)| < 0x8000_0000
    requires kind != 0 && kind != FREE_KIND && IsName(name) && len < 0x8000_0000
    ensures Valid(NewIn(t, kind, name, len).0)
    ensures var (mem, h) := Created(Wiped(t), kind, name, len);
            FreeCreated(mem).0 == Image(NewIn(t, kind, name, len).0)
            && (if h.len != len then Handle(0, 0) else h) == NewIn(t, kind, name, len).1
  {
    hide Created, FreeCreated, EncodeAll, Encode, Erased, NewPartition;
    NewIsValid(t, kind, name, len);
    ImageIsChain(t);
    var ps, space := if t.free == 1 then AllOf(t) else t.used, if t.free >= 2 then t.free else 0;
    if t.free >= 2 { WipedFree(t); }
    var u := UnitsFor(len);
    CreatedInChain(ps, space, kind, name, len);
    if u <= space {
      FreeInChain(ps + [NewPartition(kind, name, u)], space - u);
    } else {
      FreeInChain(ps, space);
      assert EncodeAll(ps) + [] == EncodeAll(ps);
    }
  }

  /** All partitions of a table, the free one included. */
  function AllOf(t: Table): (all: seq<Partition>)
    requires Valid(t)
    ensures AllWellFormed(all) && t.used <= all
  {
    if t.free == 0 then t.used else t.used + [FreePartition(t.free)]
  }

  /** An image is a chain that fills the memory. */
  lemma ImageIsChain(t: Table)
    requires Valid(t)
    ensures EncodeAll(AllOf(t)) == Image(t) == Chain(AllOf(t), 0)
  {
    hide Encode;
    if t.free == 0 {
      assert EncodeAll(t.used) + [] == EncodeAll(t.used);
    } else {
      EncodeAppends(t.used, [FreePartition(t.free)]);
      OneChain(FreePartition(t.free));
    }
    assert Image(t) + Fill(0, 0) == Image(t);
  }

  /** The headers of an image tile the memory: the walk over them ends exactly at its end. */
  lemma ImageTiles(t: Table)
    requires Valid(t)
    ensures UsedSpace(Image(t), 0) == |Image(t)|
  {
    hide EncodeAll;
    ImageIsChain(t);
    UsedSpaceOf(AllOf(t), 0);
  }

  /** A lookup in an image returns, and finds the first matching partition; there is no type 0 to find. */
  lemma LookupInImage(t: Table, q: Query)
    requires Valid(t)
    ensures !Hangs(Image(t), q, 0)
    ensures Lookup(Image(t), q, 0) ==
            match FirstMatch(AllOf(t), q)
            case None => NO_PARTITION
            case Some(k) => HandleOf(AllOf(t), k, 0)
  {
    hide Encode, EncodeAll;
    var mem := Image(t);
    ImageIsChain(t);
    assert mem[0..|mem|] == mem;
    LookupInChain(mem, 0, AllOf(t), q);
  }

  /** Looking for type 0 in a memory that is not full finds the unpartitioned space behind the partitions. */
  lemma LookupFindsUnpartitioned(ps: seq<Partition>, units: nat)
    requires AllWellFormed(ps) && units >= 1
    ensures var mem, q := Chain(ps, units), Query(Some(0), None);
            !Hangs(mem, q, 0) && Lookup(mem, q, 0) == HandleAt(|EncodeAll(ps)|, 0)
  {
    hide Encode, EncodeAll;
    var mem, q, end := Chain(ps, units), Query(Some(0), None), |EncodeAll(ps)|;
    assert mem[0..end] == EncodeAll(ps);
    LookupInChain(mem, 0, ps, q);
    assert Window(mem, end) == Fill(0, HEADER);
    assert mem[end + 2..end + 4] == [0, 0];
    ZeroChecksum();
  }

  lemma ZeroChecksum()
    ensures Checksum(Fill(0, HEADER)) == 0
  {
    SumOfZeros(Fill(0, HEADER), 2);
  }

  lemma {:induction false} SumOfZeros(s: seq<byte>, i: nat)
    requires i <= |s| && forall j :: 0 <= j < |s| ==> s[j] == 0
    ensures Sum(s, i) == 0
    decreases |s| - i
  {
    if i < |s| { SumOfZeros(s, i + 1); }
  }

  /** The free partition is found exactly if there is one. */
  lemma FirstFree(t: Table)
    requires Valid(t)
    ensures FirstMatch(t.used, FREE_QUERY) == None
    ensures FirstMatch(AllOf(t), FREE_QUERY) == if t.free == 0 then None else Some(|t.used|)
  {
    var all := AllOf(t);
    assert forall i :: 0 <= i < |t.used| ==> !Matches(FREE_QUERY, all[i].kind, all[i].name);
    if t.free != 0 { assert Matches(FREE_QUERY, all[|t.used|].kind, all[|t.used|].name); }
  }

  lemma LookupFree(t: Table)
    requires Valid(t)
    ensures Lookup(Image(t), FREE_QUERY, 0) ==
            if t.free == 0 then NO_PARTITION
            else Handle(|EncodeAll(t.used)| + HEADER, 16 * t.free - HEADER)
  {
    hide Encode, EncodeAll, Image, Lookup, FirstMatch;
    LookupInImage(t, FREE_QUERY);
    FirstFree(t);
    if t.free != 0 { assert AllOf(t)[..|t.used|] == t.used; }
  }

  /** Erasing the header of the free partition leaves its zeros behind the partitions in use. */
  lemma WipedFree(t: Table)
    requires Valid(t) && t.free >= 1
    ensures Erased(Image(t), |EncodeAll(t.used)|, HEADER) == Chain(t.used, t.free)
  {
    hide Header;
  }

  // ----- reset

  const LOG_KIND: byte := 0x51
  const COMMON_KIND: byte := 0x70
  const COMMON_UNITS := 0x100

  /** "ibm,CPU0log" and "ibm,CPU1log". */
  function LogName(cpu: nat): (s: seq<byte>)
    requires cpu < 2
    ensures IsName(s)
  {
    [0x69, 0x62, 0x6d, 0x2c, 0x43, 0x50, 0x55, 0x30 + cpu, 0x6c, 0x6f, 0x67]
  }

  /** "common". */
  function CommonName(): (s: seq<byte>)
    ensures IsName(s)
  {
    [0x63, 0x6f, 0x6d, 0x6d, 0x6f, 0x6e]
  }

  /** What init_cpulog_partition writes: data offset 0x40, flags 0, pointer 1. */
  function LogStart(): (s: seq<byte>)
    ensures |s| == 8
  {
    Be16(0x40) + Be16(0) + Be32(1)
  }

  function LogPartition(cpu: nat, units: nat): (p: Partition)
    requires cpu < 2 && 2 <= units <= 0xffff
    ensures WellFormed(p) && Units(p) == units && p.kind == LOG_KIND
  {
    var p := NewPartition(LOG_KIND, LogName(cpu), units);
    p.(data := Patch(p.data, 0, LogStart()))
  }

  /** The three fixed partitions fit, and 16 bits hold the length of each partition and of the rest. */
  predicate ResetFits(total: nat, log0: nat, log1: nat) {
    2 <= log0 <= 0xffff && 2 <= log1 <= 0xffff && 0 <= total - log0 - log1 - COMMON_UNITS <= 0xffff
  }

  /** The table reset_nvram leaves in a memory of `total` units. */
  function ResetTable(total: nat, log0: nat, log1: nat): (t: Table)
    requires ResetFits(total, log0, log1)
    ensures Valid(t)
  {
    Table([LogPartition(0, log0), LogPartition(1, log1), NewPartition(COMMON_KIND, CommonName(), COMMON_UNITS)],
          total - log0 - log1 - COMMON_UNITS)
  }

  /** A write at `off` in the contents of one partition of a chain. */
  lemma WriteIntoChain(a: seq<Partition>, p: Partition, b: seq<Partition>, units: nat, off: nat, s: seq<byte>)
    requires AllWellFormed(a) && WellFormed(p) && AllWellFormed(b) && off + |s| <= |p.data|
    ensures var p1 := p.(data := Patch(p.data, off, s));
            && WellFormed(p1) && AllWellFormed(a + [p] + b) && AllWellFormed(a + [p1] + b)
            && |EncodeAll(a)| + HEADER + off + |s| <= |Chain(a + [p] + b, units)|
            && Patch(Chain(a + [p] + b, units), |EncodeAll(a)| + HEADER + off, s) == Chain(a + [p1] + b, units)
  {
    hide Header, EncodeAll;
    var p1, rest := p.(data := Patch(p.data, off, s)), EncodeAll(b) + Fill(0, 16 * units);
    SameHeader(p, p1);
    EncodeThree(a, p, b);
    EncodeThree(a, p1, b);
    PatchInside(EncodeAll(a), Header(p), p.data, rest, off, s);
    assert Chain(a + [p] + b, units) == EncodeAll(a) + Encode(p) + rest;
    assert Chain(a + [p1] + b, units) == EncodeAll(a) + Encode(p1) + rest;
  }

  /** The table after a write at `off` in the contents of partition `k`. */
  function WriteTo(t: Table, k: nat, off: nat, s: seq<byte>): Table
    requires Valid(t) && k < |t.used| && off + |s| <= |t.used[k].data|
  {
    t.(used := t.used[k := t.used[k].(data := Patch(t.used[k].data, off, s))])
  }

  /** A write between the headers leaves the image of the table with the new contents. */
  lemma WriteIntoImage(t: Table, k: nat, off: nat, s: seq<byte>)
    requires Valid(t) && k < |t.used| && off + |s| <= |t.used[k].data|
    ensures var h, t1 := HandleOf(AllOf(t), k, 0), WriteTo(t, k, off, s);
            && h.addr >= HEADER && h.addr + off + |s| <= h.addr + h.len <= |Image(t)|
            && Valid(t1) && Patch(Image(t), h.addr + off, s) == Image(t1)
  {
    hide EncodeAll, Encode, Image, Chain;
    var all, t1 := AllOf(t), WriteTo(t, k, off, s);
    var a, p, b := all[..k], all[k], all[k + 1..];
    assert all == a + [p] + b;
    WriteIntoChain(a, p, b, 0, off, s);
    WriteIntoChain(a, p, b, 0, |p.data|, []);
    var p1 := p.(data := Patch(p.data, off, s));
    assert AllOf(t1) == a + [p1] + b;
    ImageIsChain(t);
    ImageIsChain(t1);
  }

  lemma EncodeThree(a: seq<Partition>, p: Partition, b: seq<Partition>)
    requires AllWellFormed(a) && WellFormed(p) && AllWellFormed(b)
    ensures AllWellFormed(a + [p] + b) && EncodeAll(a + [p] + b) == EncodeAll(a) + Encode(p) + EncodeAll(b)
  {
    hide Encode;
    EncodeAppends(a, [p]);
    EncodeAppends(a + [p], b);
    OneChain(p);
  }

  lemma SameHeader(p: Partition, q: Partition)
    requires WellFormed(p) && WellFormed(q)
    requires p.kind == q.kind && p.name == q.name && |p.data| == |q.data|
    ensures Header(p) == Header(q)
  {
  }

  lemma PatchInside(a: seq<byte>, h: seq<byte>, d: seq<byte>, c: seq<byte>, off: nat, s: seq<byte>)
    requires off + |s| <= |d|
    ensures Patch(a + (h + d) + c, |a| + |h| + off, s) == a + (h + Patch(d, off, s)) + c
  {
  }
}
