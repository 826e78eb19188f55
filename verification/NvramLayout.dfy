/** The partition chain of lib/libnvram/nvram.c over values: headers, the memory image of a partition
    table, and the walks over it. */
module NvramLayout {
  import opened Bytes

  const HEADER := 16
  const FREE_KIND: byte := 0x7f

  // ----- reading memory; accesses outside the NVRAM read as 0

  function At(mem: seq<byte>, i: int): byte { if 0 <= i < |mem| then mem[i] else 0 }

  function WordAt(mem: seq<byte>, i: int): uint16 {
    if 0 <= i && i + 2 <= |mem| then FromBe16(mem[i..i + 2]) else 0
  }

  /** The 16 bytes at `off`. */
  function Window(mem: seq<byte>, off: nat): (w: seq<byte>)
    ensures |w| == HEADER && forall i :: 0 <= i < HEADER ==> w[i] == At(mem, off + i)
  {
    seq<byte>(HEADER, i requires 0 <= i < HEADER => At(mem, off + i))
  }

  function Sum(s: seq<byte>, i: nat): nat
    requires i <= |s|
    decreases |s| - i
  {
    if i == |s| then 0 else s[i] as int + Sum(s, i + 1)
  }

  /** The folded sum of a header without its checksum byte. */
  function Checksum(h: seq<byte>): byte
    requires |h| == HEADER
  {
    var plain := h[0] as int + Sum(h, 2);
    (plain / 0x100 + plain % 0x100) % 0x100
  }

  function ChecksumAt(mem: seq<byte>, off: nat): byte { Checksum(Window(mem, off)) }

  // ----- partitions

  /** A partition: its type, its name padded to 12 bytes, and its contents. */
  datatype Partition = Partition(kind: byte, name: seq<byte>, data: seq<byte>)

  predicate WellFormed(p: Partition) {
    p.kind != 0 && |p.name| == 12 && |p.data| % 16 == 0 && |p.data| < 0xf_fff0
  }

  /** The length of a partition in units of 16 bytes, with its header. */
  function Units(p: Partition): (u: uint16)
    requires WellFormed(p)
    ensures 16 * u == HEADER + |p.data| && u >= 1
  {
    1 + |p.data| / 16
  }

  function Header(p: Partition): (h: seq<byte>)
    requires WellFormed(p)
    ensures |h| == HEADER
  {
    var h := [p.kind, 0] + Be16(Units(p)) + p.name;
    h[1 := Checksum(h)]
  }

  function Encode(p: Partition): (s: seq<byte>)
    requires WellFormed(p)
    ensures |s| == 16 * Units(p) && s[..HEADER] == Header(p)
  {
    Header(p) + p.data
  }

  predicate AllWellFormed(ps: seq<Partition>) { forall i :: 0 <= i < |ps| ==> WellFormed(ps[i]) }

  function EncodeAll(ps: seq<Partition>): (s: seq<byte>)
    requires AllWellFormed(ps)
    ensures |s| % 16 == 0
  {
    if ps == [] then [] else Encode(ps[0]) + EncodeAll(ps[1..])
  }

  /** "free space", padded. */
  function FreeName(): (s: seq<byte>)
    ensures |s| == 12
  {
    [0x66, 0x72, 0x65, 0x65, 0x20, 0x73, 0x70, 0x61, 0x63, 0x65, 0, 0]
  }

  function FreePartition(units: nat): (p: Partition)
    requires 1 <= units <= 0xffff
    ensures WellFormed(p) && Units(p) == units
  {
    Partition(FREE_KIND, FreeName(), Fill(0, 16 * units - HEADER))
  }

  /** A partition table: the partitions in use, and the size of the free partition behind them in units
      (0: there is none). */
  datatype Table = Table(used: seq<Partition>, free: nat)

  predicate Valid(t: Table) {
    AllWellFormed(t.used) && t.free <= 0xffff && forall i :: 0 <= i < |t.used| ==> t.used[i].kind != FREE_KIND
  }

  function FreeImage(units: nat): (s: seq<byte>)
    requires units <= 0xffff
    ensures |s| == 16 * units
  {
    if units == 0 then [] else Encode(FreePartition(units))
  }

  /** The whole NVRAM: checksummed headers that tile it, and a zero-filled free partition at the end. */
  function Image(t: Table): (s: seq<byte>)
    requires Valid(t)
    ensures |s| % 16 == 0
  {
    EncodeAll(t.used) + FreeImage(t.free)
  }

  // ----- the walks

  /** calc_used_nvram_space from `walk` on: it ends at a type 0, a wrong checksum or a length 0. */
  function UsedSpace(mem: seq<byte>, walk: nat): nat
    decreases |mem| - walk
  {
    if walk >= |mem| || At(mem, walk) == 0 || At(mem, walk + 1) != ChecksumAt(mem, walk) || WordAt(mem, walk + 2) == 0
    then walk
    else UsedSpace(mem, walk + 16 * WordAt(mem, walk + 2))
  }

  /** A partition_t: the address of the contents and their length; (0, -1) for no partition. */
  datatype Handle = Handle(addr: int, len: int)

  const NO_PARTITION := Handle(0, -1)

  /** strncmp(stored, name, n) == 0 for a C string `name`. */
  predicate SameName(stored: seq<byte>, name: seq<byte>, n: nat)
    requires |stored| == n
  {
    if n == 0 then true
    else if name == [] then stored[0] == 0
    else stored[0] == name[0] && (name[0] == 0 || SameName(stored[1..], name[1..], n - 1))
  }

  /** What get_partition looks for: a type (None: any) and a name (None: any). */
  datatype Query = Query(kind: Option<byte>, name: Option<seq<byte>>)

  predicate Matches(q: Query, kind: byte, name: seq<byte>)
    requires |name| == 12
  {
    (q.kind.Some? ==> q.kind.value == kind) && (q.name.Some? ==> SameName(name, q.name.value, 12))
  }

  /** The query of the operations for the free partition. */
  const FREE_QUERY := Query(Some(FREE_KIND), None)

  /** The partition_t of a header at `walk`; a length 0 wraps in 32 bits. */
  function HandleAt(walk: nat, units: uint16): Handle {
    Handle(walk + HEADER, if units == 0 then 0x1_0000_0000 - HEADER else 16 * units - HEADER)
  }

  predicate Checksummed(mem: seq<byte>, walk: nat) {
    walk < |mem| && At(mem, walk + 1) == ChecksumAt(mem, walk)
  }

  /** Whether the header at `walk` is the one get_partition looks for. */
  predicate Hit(mem: seq<byte>, q: Query, walk: nat) { Matches(q, At(mem, walk), Window(mem, walk)[4..]) }

  /** get_partition from `walk` on. A length 0 ends it, unless type 0 is looked for. */
  function Lookup(mem: seq<byte>, q: Query, walk: nat): Handle
    decreases |mem| - walk
  {
    var units := WordAt(mem, walk + 2);
    if !Checksummed(mem, walk) || (q.kind != Some(0) && units == 0) then NO_PARTITION
    else if Hit(mem, q, walk) then HandleAt(walk, units)
    else if units == 0 then NO_PARTITION
    else Lookup(mem, q, walk + 16 * units)
  }

  /** get_partition does not return: looking for type 0, it meets a length 0 without a match, and does not
      advance. */
  predicate Hangs(mem: seq<byte>, q: Query, walk: nat)
    decreases |mem| - walk
  {
    var units := WordAt(mem, walk + 2);
    && Checksummed(mem, walk)
    && !Hit(mem, q, walk)
    && if units == 0 then q.kind == Some(0) else Hangs(mem, q, walk + 16 * units)
  }

  lemma {:induction false} OnlyTypeZeroHangs(mem: seq<byte>, q: Query, walk: nat)
    requires q.kind != Some(0)
    ensures !Hangs(mem, q, walk)
    decreases |mem| - walk
  {
    var units: int := WordAt(mem, walk + 2);
    if walk < |mem| && units != 0 { OnlyTypeZeroHangs(mem, q, walk + 16 * units); }
  }

  // ----- headers in memory

  /** A partition's header starts at `off`. */
  predicate HeaderAt(mem: seq<byte>, off: nat, p: Partition)
    requires WellFormed(p)
  {
    off + HEADER <= |mem| && mem[off..off + HEADER] == Header(p)
  }

  lemma {:induction false} SumSkips(a: seq<byte>, b: seq<byte>, i: nat)
    requires |a| == |b| && i <= |a| && a[i..] == b[i..]
    ensures Sum(a, i) == Sum(b, i)
    decreases |a| - i
  {
    if i < |a| {
      assert a[i] == a[i..][0] && b[i] == b[i..][0];
      assert a[i + 1..] == a[i..][1..] && b[i + 1..] == b[i..][1..];
      SumSkips(a, b, i + 1);
    }
  }

  lemma ReadHeader(mem: seq<byte>, off: nat, p: Partition)
    requires WellFormed(p) && HeaderAt(mem, off, p)
    ensures At(mem, off) == p.kind && At(mem, off + 1) == ChecksumAt(mem, off)
    ensures WordAt(mem, off + 2) == Units(p) && Window(mem, off)[4..] == p.name
  {
    var w, plain := Window(mem, off), [p.kind, 0] + Be16(Units(p)) + p.name;
    assert w == mem[off..off + HEADER];
    assert w == plain[1 := Checksum(plain)];
    assert w[2..] == plain[2..];
    SumSkips(w, plain, 2);
    assert mem[off + 2..off + 4] == w[2..4] == Be16(Units(p));
  }

  lemma {:induction false} EncodeAppends(a: seq<Partition>, b: seq<Partition>)
    requires AllWellFormed(a) && AllWellFormed(b)
    ensures AllWellFormed(a + b) && EncodeAll(a + b) == EncodeAll(a) + EncodeAll(b)
  {
    hide Encode;
    if a == [] {
      assert a + b == b;
    } else {
      assert (a + b)[1..] == a[1..] + b && (a + b)[0] == a[0];
      EncodeAppends(a[1..], b);
    }
  }

  /** Behind the partitions comes the end of memory, a type 0 or a length 0. */
  predicate Ends(mem: seq<byte>, off: nat) {
    off == |mem| || (off < |mem| && (mem[off] == 0 || WordAt(mem, off + 2) == 0))
  }

  /** The walk over the headers passes a chain of partitions. */
  lemma {:induction false} UsedSpacePasses(mem: seq<byte>, off: nat, ps: seq<Partition>)
    requires AllWellFormed(ps) && off + |EncodeAll(ps)| <= |mem|
    requires mem[off..off + |EncodeAll(ps)|] == EncodeAll(ps)
    ensures UsedSpace(mem, off) == UsedSpace(mem, off + |EncodeAll(ps)|)
    decreases |ps|
  {
    hide Encode, EncodeAll, ChecksumAt, Units, HeaderAt, WordAt;
    if ps == [] {
      EmptyChain();
    } else {
      FirstOfChain(mem, off, ps);
      ReadHeader(mem, off, ps[0]);
      UsedSpacePasses(mem, off + |Encode(ps[0])|, ps[1..]);
    }
  }

  /** If nothing follows, it ends behind the last one. */
  lemma UsedSpaceOfChain(mem: seq<byte>, off: nat, ps: seq<Partition>)
    requires AllWellFormed(ps) && off + |EncodeAll(ps)| <= |mem|
    requires mem[off..off + |EncodeAll(ps)|] == EncodeAll(ps)
    ensures UsedSpace(mem, off) == UsedSpace(mem, off + |EncodeAll(ps)|)
    ensures Ends(mem, off + |EncodeAll(ps)|) ==> UsedSpace(mem, off) == off + |EncodeAll(ps)|
  {
    hide EncodeAll, ChecksumAt;
    UsedSpacePasses(mem, off, ps);
  }

  lemma FirstOfChain(mem: seq<byte>, off: nat, ps: seq<Partition>)
    requires ps != [] && AllWellFormed(ps) && off + |EncodeAll(ps)| <= |mem|
    requires mem[off..off + |EncodeAll(ps)|] == EncodeAll(ps)
    ensures HeaderAt(mem, off, ps[0])
    ensures |EncodeAll(ps)| == |Encode(ps[0])| + |EncodeAll(ps[1..])| && |Encode(ps[0])| == 16 * Units(ps[0])
    ensures var off1 := off + |Encode(ps[0])|; mem[off1..off1 + |EncodeAll(ps[1..])|] == EncodeAll(ps[1..])
  {
    hide Encode, Units;
    SplitWindow(mem, off, Encode(ps[0]), EncodeAll(ps[1..]), HEADER);
  }

  /** The first partition of a list that matches a query. */
  function FirstMatch(ps: seq<Partition>, q: Query): (r: Option<nat>)
    requires AllWellFormed(ps)
    ensures r.Some? ==> r.value < |ps| && Matches(q, ps[r.value].kind, ps[r.value].name)
    ensures forall i :: 0 <= i < (if r.Some? then r.value else |ps|) ==> !Matches(q, ps[i].kind, ps[i].name)
  {
    if ps == [] then None
    else if Matches(q, ps[0].kind, ps[0].name) then Some(0)
    else
      match FirstMatch(ps[1..], q)
      case None => None
      case Some(i) => Some(i + 1)
  }

  /** The address and length of the contents of partition `i` of a chain that starts at `off`. */
  function HandleOf(ps: seq<Partition>, i: nat, off: nat): Handle
    requires i < |ps| && AllWellFormed(ps)
  {
    Handle(off + |EncodeAll(ps[..i])| + HEADER, |ps[i].data|)
  }

  /** Looking up a query in a chain finds the first matching partition, and otherwise goes on behind it. */
  lemma {:induction false} LookupInChain(mem: seq<byte>, off: nat, ps: seq<Partition>, q: Query)
    requires AllWellFormed(ps) && off + |EncodeAll(ps)| <= |mem|
    requires mem[off..off + |EncodeAll(ps)|] == EncodeAll(ps)
    ensures Lookup(mem, q, off) ==
            match FirstMatch(ps, q)
            case None => Lookup(mem, q, off + |EncodeAll(ps)|)
            case Some(i) => HandleOf(ps, i, off)
    ensures Hangs(mem, q, off) <==> FirstMatch(ps, q).None? && Hangs(mem, q, off + |EncodeAll(ps)|)
    decreases |ps|
  {
    hide Encode, ChecksumAt, Matches, Units, EncodeAll;
    if ps == [] {
      assert |EncodeAll(ps)| == 0 by { EmptyChain(); }
    } else {
      FirstOfChain(mem, off, ps);
      ReadHeader(mem, off, ps[0]);
      assert Checksummed(mem, off) && (Hit(mem, q, off) <==> Matches(q, ps[0].kind, ps[0].name));
      if Matches(q, ps[0].kind, ps[0].name) {
        assert ps[..0] == [];
        EmptyChain();
      } else {
        LookupInChain(mem, off + |Encode(ps[0])|, ps[1..], q);
        if FirstMatch(ps[1..], q).Some? {
          HandleInRest(ps, FirstMatch(ps[1..], q).value, off);
        }
      }
    }
  }

  lemma EmptyChain()
    ensures EncodeAll([]) == []
  {
  }

  lemma HandleInRest(ps: seq<Partition>, i: nat, off: nat)
    requires i + 1 < |ps| && AllWellFormed(ps)
    ensures HandleOf(ps[1..], i, off + |Encode(ps[0])|) == HandleOf(ps, i + 1, off)
  {
    hide Encode;
    assert ps[..i + 1][1..] == ps[1..][..i];
  }

  // ----- writing memory; accesses outside the NVRAM are ignored

  function WriteByteAt(mem: seq<byte>, i: int, v: byte): (r: seq<byte>)
    ensures |r| == |mem|
  {
    if 0 <= i < |mem| then mem[i := v] else mem
  }

  function WriteWordAt(mem: seq<byte>, i: int, v: uint16): (r: seq<byte>)
    ensures |r| == |mem|
  {
    if 0 <= i && i + 2 <= |mem| then Patch(mem, i, Be16(v)) else mem
  }

  function WriteBytesAt(mem: seq<byte>, i: int, s: seq<byte>): (r: seq<byte>)
    ensures |r| == |mem|
    decreases |s|
  {
    if s == [] then mem else WriteBytesAt(WriteByteAt(mem, i, s[0]), i + 1, s[1..])
  }

  /** erase_nvram. */
  function Erased(mem: seq<byte>, off: int, len: int): (r: seq<byte>)
    ensures |r| == |mem| && forall i :: 0 <= i < |mem| ==> r[i] == if off <= i < off + len then 0 else mem[i]
  {
    seq<byte>(|mem|, i requires 0 <= i < |mem| => if off <= i < off + len then 0 else mem[i])
  }

  /** The header writes of create_nvram_partition: type, length, name, then the checksum of the result. */
  function WriteHeader(mem: seq<byte>, off: nat, kind: byte, units: uint16, name: seq<byte>): (r: seq<byte>)
    ensures |r| == |mem|
  {
    var m := WriteBytesAt(WriteWordAt(WriteByteAt(mem, off, kind), off + 2, units), off + 4, name);
    WriteByteAt(m, off + 1, ChecksumAt(m, off))
  }

  /** ALIGN(len + 16, 16) in 32-bit arithmetic. */
  function PaddedLength(len: uint32): uint32 { (len + 31) % 0x1_0000_0000 / 16 * 16 }

  /** create_nvram_partition: the new memory and the handle it returns. */
  function Created(mem: seq<byte>, kind: byte, name: seq<byte>, len: uint32): (r: (seq<byte>, Handle))
    ensures |r.0| == |mem|
  {
    var used, plen := UsedSpace(mem, 0), PaddedLength(len);
    if (|mem| - used) % 0x1_0000_0000 < plen then (mem, Handle(0, 0))
    else (WriteHeader(mem, used, kind, plen / 16 % 0x1_0000, name), Handle(used + HEADER, len))
  }

  predicate IsName(name: seq<byte>) { |name| <= 12 && 0 !in name }

  function Pad(name: seq<byte>): (s: seq<byte>)
    requires |name| <= 12
    ensures |s| == 12
  {
    name + Fill(0, 12 - |name|)
  }

  function UpTo(s: seq<byte>, n: nat): seq<byte> { if |s| <= n then s else s[..n] }

  /** The comparison of names is exact for C strings, up to 12 bytes: a stored name equals its own name only. */
  lemma {:induction false} SameNameIs(stored: seq<byte>, name: seq<byte>, n: nat)
    requires |stored| <= n && 0 !in stored && 0 !in name
    ensures SameName(stored + Fill(0, n - |stored|), name, n) <==> stored == UpTo(name, n)
    decreases n
  {
    var s := stored + Fill(0, n - |stored|);
    if n > 0 && name != [] {
      if stored == [] {
        assert s[0] == 0 && name[0] in name;
      } else {
        assert s[0] == stored[0] && s[1..] == stored[1..] + Fill(0, n - |stored|);
        assert stored[0] in stored && name[0] in name;
        assert stored == [stored[0]] + stored[1..] && name == [name[0]] + name[1..];
        SameNameIs(stored[1..], name[1..], n - 1);
        assert UpTo(name, n) == [name[0]] + UpTo(name[1..], n - 1);
      }
    }
  }

  /** A partition created under a name is found under this name, and under no other of at most 12 bytes. */
  lemma FoundByName(kind: byte, name: seq<byte>, units: nat, q: seq<byte>)
    requires kind != 0 && IsName(name) && 1 <= units <= 0xffff && 0 !in q
    ensures var p := NewPartition(kind, name, units);
            && (Matches(Query(Some(kind), Some(q)), p.kind, p.name) <==> name == UpTo(q, 12))
            && forall k: byte :: k != kind ==> !Matches(Query(Some(k), Some(q)), p.kind, p.name)
  {
    SameNameIs(name, q, 12);
  }

  /** A fresh partition: zero contents. */
  function NewPartition(kind: byte, name: seq<byte>, units: nat): (p: Partition)
    requires kind != 0 && |name| <= 12 && 1 <= units <= 0xffff
    ensures WellFormed(p) && Units(p) == units
  {
    Partition(kind, Pad(name), Fill(0, 16 * units - HEADER))
  }

  lemma {:induction false} WriteBytesIs(mem: seq<byte>, i: nat, s: seq<byte>)
    requires i + |s| <= |mem|
    ensures WriteBytesAt(mem, i, s) == Patch(mem, i, s)
    decreases |s|
  {
    if s != [] {
      var m := WriteByteAt(mem, i, s[0]);
      WriteBytesIs(m, i + 1, s[1..]);
      assert Patch(m, i + 1, s[1..]) == Patch(mem, i, s);
    } else {
      assert Patch(mem, i, s) == mem;
    }
  }

  lemma {:induction false} WriteBytesOutside(mem: seq<byte>, i: nat, s: seq<byte>)
    requires i >= |mem|
    ensures WriteBytesAt(mem, i, s) == mem
    decreases |s|
  {
    if s != [] { WriteBytesOutside(mem, i + 1, s[1..]); }
  }

  /** The header writes produce a header with the padded name, if the bytes behind the name are zero. */
  lemma WritesHeader(mem: seq<byte>, off: nat, kind: byte, name: seq<byte>, units: nat)
    requires PadIsZero(mem, off, name)
    requires kind != 0 && 1 <= units <= 0xffff
    ensures WriteHeader(mem, off, kind, units, name) == Patch(mem, off, Header(NewPartition(kind, name, units)))
  {
    hide Checksum, Be16, Patch, Window, WriteBytesAt, WriteWordAt, Units;
    var p := NewPartition(kind, name, units);
    var plain := [p.kind, mem[off + 1]] + Be16(units) + p.name;
    WritesPlainHeader(mem, off, kind, name, units);
    WindowOfPatch(mem, off, plain);
    PatchThenByte(mem, off, plain, 1, Checksum(plain));
    SameChecksum(plain, [p.kind, 0] + Be16(units) + p.name);
  }

  /** The bytes of a header at `off` that no part of `name` is written to are zero. */
  predicate PadIsZero(mem: seq<byte>, off: nat, name: seq<byte>) {
    |name| <= 12 && off + HEADER <= |mem| && mem[off + 4 + |name|..off + HEADER] == Fill(0, 12 - |name|)
  }

  lemma SameChecksum(a: seq<byte>, b: seq<byte>)
    requires |a| == |b| == HEADER && a[0] == b[0] && a[2..] == b[2..]
    ensures Checksum(a) == Checksum(b) && a[1 := Checksum(a)] == b[1 := Checksum(b)]
  {
    SumSkips(a, b, 2);
    assert forall i :: 2 <= i < HEADER ==> a[i] == a[2..][i - 2] && b[i] == b[2..][i - 2];
  }

  /** The header writes up to the checksum. */
  lemma WritesPlainHeader(mem: seq<byte>, off: nat, kind: byte, name: seq<byte>, units: uint16)
    requires PadIsZero(mem, off, name)
    ensures WriteBytesAt(WriteWordAt(WriteByteAt(mem, off, kind), off + 2, units), off + 4, name)
            == Patch(mem, off, [kind, mem[off + 1]] + Be16(units) + Pad(name))
  {
    hide WriteBytesAt, Be16, Pad;
    WriteBytesIs(Patch(mem[off := kind], off + 2, Be16(units)), off + 4, name);
    FourPatches(mem, off, kind, Be16(units), name);
    assert Pad(name) == name + Fill(0, 12 - |name|) by { PadIs(name); }
  }

  lemma PadIs(name: seq<byte>)
    requires |name| <= 12
    ensures Pad(name) == name + Fill(0, 12 - |name|)
  {
  }

  lemma FourPatches(mem: seq<byte>, off: nat, kind: byte, word: seq<byte>, name: seq<byte>)
    requires PadIsZero(mem, off, name) && |word| == 2
    ensures Patch(Patch(mem[off := kind], off + 2, word), off + 4, name)
            == Patch(mem, off, [kind, mem[off + 1]] + word + (name + Fill(0, 12 - |name|)))
  {
    hide Patch;
    var h, pad := [kind, mem[off + 1]] + word + (name + Fill(0, 12 - |name|)), off + 4 + |name|;
    assert forall i :: pad <= i < off + HEADER ==> mem[i] == mem[pad..off + HEADER][i - pad] == 0;
    var a, b := Patch(Patch(mem[off := kind], off + 2, word), off + 4, name), Patch(mem, off, h);
    assert forall i :: 0 <= i < |mem| ==> a[i] == b[i];
  }

  lemma WindowOfPatch(mem: seq<byte>, off: nat, h: seq<byte>)
    requires |h| == HEADER && off + HEADER <= |mem|
    ensures Window(Patch(mem, off, h), off) == h
  {
    hide Patch;
    var w := Window(Patch(mem, off, h), off);
    assert forall i :: 0 <= i < HEADER ==> w[i] == h[i];
  }

  lemma PatchThenByte(mem: seq<byte>, off: nat, h: seq<byte>, i: nat, v: byte)
    requires i < |h| && off + |h| <= |mem|
    ensures WriteByteAt(Patch(mem, off, h), off + i, v) == Patch(mem, off, h[i := v])
  {
  }

  lemma NoHeaderOutside(mem: seq<byte>, kind: byte, units: uint16, name: seq<byte>)
    ensures WriteHeader(mem, |mem|, kind, units, name) == mem
  {
    WriteBytesOutside(mem, |mem| + 4, name);
  }
}
