/** Runs of the partition operations of lib/libnvram/nvram.c, and what a deletion does when its conditions
    are not met. */
module NvramRuns {
  import opened Bytes
  import opened NvramLayout
  import opened NvramTable
  import opened NvramDelete

  // ----- operations

  /** An operation of a run: reset with the lengths of the two log partitions, creation, deletion of the
      partition a lookup finds, or a write at an offset in its contents. */
  datatype Op = Reset(log0: nat, log1: nat) | New(kind: byte, name: seq<byte>, len: nat) | Delete(q: Query)
              | Write(q: Query, off: nat, data: seq<byte>)

  /** The partition delete_nvram_partition is called for: the one found, if it has contents. */
  function Victim(t: Table, q: Query): (r: Option<nat>)
    requires Valid(t)
    ensures r.Some? ==> r.value < |AllOf(t)| && AllOf(t)[r.value].data != []
  {
    match FirstMatch(AllOf(t), q)
    case None => None
    case Some(k) => if AllOf(t)[k].data == [] then None else Some(k)
  }

  /** The partitions of a reset fit; names and types are as new_nvram_partition expects them; the free
      partition behind a deletion can be expressed in 16 bits, and the stale bytes vanish; writes stay inside a
      partition in use. */
  predicate Allowed(t: Table, op: Op)
    requires Valid(t)
  {
    match op
    case Reset(log0, log1) => ResetFits(|Image(t)| / 16, log0, log1)
    case New(kind, name, len) => kind != 0 && kind != FREE_KIND && IsName(name) && len < 0x8000_0000
    case Delete(q) =>
      (match Victim(t, q)
       case None => true
       case Some(k) => DeleteFrom(t, k).free <= 0xffff && StaleVanishes(t, k))
    case Write(q, off, data) =>
      match FirstMatch(AllOf(t), q)
      case None => true
      case Some(k) => k < |t.used| && off + |data| <= |t.used[k].data|
  }

  function Apply(t: Table, op: Op): Table
    requires Valid(t) && Allowed(t, op)
  {
    match op
    case Reset(log0, log1) => ResetTable(|Image(t)| / 16, log0, log1)
    case New(kind, name, len) => NewIn(t, kind, name, len).0
    case Delete(q) =>
      (match Victim(t, q)
       case None => t
       case Some(k) => DeleteFrom(t, k))
    case Write(q, off, data) =>
      match FirstMatch(AllOf(t), q)
      case None => t
      case Some(k) => WriteTo(t, k, off, data)
  }

  /** The condition on a deletion is exact: without it the memory is not the image of the table without the
      partition. */
  lemma DeletionNeedsIt(t: Table, q: Query)
    requires Valid(t) && |Image(t)| < 0x8000_0000 && Victim(t, q).Some?
    ensures var k := Victim(t, q).value;
            && Inside(Image(t), HandleOf(AllOf(t), k, 0))
            && (Allowed(t, Delete(q)) <==>
                Valid(DeleteFrom(t, k)) && Deleted(Image(t), HandleOf(AllOf(t), k, 0)) == Image(DeleteFrom(t, k)))
  {
    hide Image, Deleted, StaleVanishes, EncodeAll;
    DeleteSteps(t, Victim(t, q).value);
  }

  /** With 48 bytes free a deletion is allowed if 16 bits hold the new length, which they do in every NVRAM
      of less than 1 MB. */
  lemma UsualDeletion(t: Table, q: Query)
    requires Valid(t) && t.free >= 3
    requires |Image(t)| <= 0xf_fff0 || (Victim(t, q).Some? ==> DeleteFrom(t, Victim(t, q).value).free <= 0xffff)
    ensures Allowed(t, Delete(q))
  {
    hide Image, StaleVanishes, EncodeAll;
    if Victim(t, q).Some? {
      LargeFreeVanishes(t, Victim(t, q).value);
      MovedImage(t, Victim(t, q).value);
    }
  }

  lemma ApplyIsValid(t: Table, op: Op)
    requires Valid(t) && Allowed(t, op)
    ensures Valid(Apply(t, op)) && |Image(Apply(t, op))| == |Image(t)|
  {
    hide EncodeAll, ResetTable, NewIn, StaleVanishes;
    match op
    case Reset(log0, log1) => ResetLength(|Image(t)| / 16, log0, log1);
    case New(kind, name, len) => NewIsValid(t, kind, name, len);
    case Delete(q) =>
      if Victim(t, q).Some? { MovedImage(t, Victim(t, q).value); }
    case Write(q, off, data) =>
      if FirstMatch(AllOf(t), q).Some? { WriteIntoImage(t, FirstMatch(AllOf(t), q).value, off, data); }
  }

  lemma ResetLength(total: nat, log0: nat, log1: nat)
    requires ResetFits(total, log0, log1)
    ensures |Image(ResetTable(total, log0, log1))| == 16 * total
  {
    hide Encode, LogPartition, NewPartition;
    var ps := ResetTable(total, log0, log1).used;
    OneChain(ps[0]);
    OneChain(ps[1]);
    OneChain(ps[2]);
    EncodeAppends([ps[0]], [ps[1]]);
    EncodeAppends([ps[0]] + [ps[1]], [ps[2]]);
    assert [ps[0]] + [ps[1]] + [ps[2]] == ps;
  }

  // ----- runs

  /** The table behind a run, None if one of its operations is not allowed. */
  function RunTable(t: Table, ops: seq<Op>): Option<Table>
    requires Valid(t)
    decreases |ops|
  {
    if ops == [] then Some(t)
    else if !Allowed(t, ops[0]) then None
    else
      ApplyIsValid(t, ops[0]);
      RunTable(Apply(t, ops[0]), ops[1..])
  }

  /** Every run keeps a valid table whose image fills the NVRAM exactly, headers tiling it. */
  lemma {:induction false} RunKeepsTable(t: Table, ops: seq<Op>)
    requires Valid(t) && RunTable(t, ops).Some?
    ensures var t1 := RunTable(t, ops).value;
            Valid(t1) && |Image(t1)| == |Image(t)| && UsedSpace(Image(t1), 0) == |Image(t)|
    decreases |ops|
  {
    hide Image, Allowed, Apply, UsedSpace;
    if ops == [] {
      ImageTiles(t);
    } else {
      ApplyIsValid(t, ops[0]);
      RunKeepsTable(Apply(t, ops[0]), ops[1..]);
    }
  }

  /** The operation neither resets the NVRAM nor deletes `p` nor writes into it: the partition found is another. */
  predicate Passes(t: Table, op: Op, p: Partition)
    requires Valid(t)
  {
    match op
    case Reset(_, _) => false
    case New(_, _, _) => true
    case Delete(q) => Victim(t, q).Some? ==> AllOf(t)[Victim(t, q).value] != p
    case Write(q, _, _) => FirstMatch(AllOf(t), q).Some? ==> AllOf(t)[FirstMatch(AllOf(t), q).value] != p
  }

  /** So it is at each step of a run. */
  predicate Spares(t: Table, ops: seq<Op>, p: Partition)
    requires Valid(t) && RunTable(t, ops).Some?
    decreases |ops|
  {
    ops == [] ||
    (ApplyIsValid(t, ops[0]);
     Passes(t, ops[0], p) && Spares(Apply(t, ops[0]), ops[1..], p))
  }

  /** A partition that the run neither deletes nor writes into survives it, contents included. */
  lemma {:induction false} RunKeepsOthers(t: Table, ops: seq<Op>, p: Partition)
    requires Valid(t) && RunTable(t, ops).Some? && p in t.used && Spares(t, ops, p)
    ensures p in RunTable(t, ops).value.used
    decreases |ops|
  {
    hide Image, Allowed, FirstMatch, ResetTable, Passes, Apply;
    if ops != [] {
      ApplyIsValid(t, ops[0]);
      StepKeeps(t, ops[0], p);
      RunKeepsOthers(Apply(t, ops[0]), ops[1..], p);
    }
  }

  lemma StepKeeps(t: Table, op: Op, p: Partition)
    requires Valid(t) && Allowed(t, op) && p in t.used && Passes(t, op, p)
    ensures p in Apply(t, op).used
  {
    hide Image, StaleVanishes, Victim, FirstMatch;
    var t1 := Apply(t, op);
    var i :| 0 <= i < |t.used| && t.used[i] == p;
    if op.Delete? && Victim(t, op.q).Some? && Victim(t, op.q).value != |t.used| {
      var k := Victim(t, op.q).value;
      assert k != i;
      assert i < k ==> t1.used[i] == p;
      assert i > k ==> t1.used[i - 1] == p;
    } else if t1.used != t.used {
      assert t1.used[i] == p;
    }
  }

  // ----- deletions whose conditions are not met

  /** If the length of the new free partition is a multiple of 0x1_0000 units, its header gets length 0: later
      lookups find the remaining partitions only, and looking for unpartitioned space does not return. */
  lemma FreeSpaceIsLost(t: Table, k: nat, q: Query)
    requires Valid(t) && |Image(t)| < 0x8000_0000 && k < |AllOf(t)| && AllOf(t)[k].data != []
    requires DeleteFrom(t, k).free == 0x1_0000 && q.kind != Some(0)
    ensures Inside(Image(t), HandleOf(AllOf(t), k, 0))
    ensures AllWellFormed(DeleteFrom(t, k).used)
    ensures StopsBehind(Deleted(Image(t), HandleOf(AllOf(t), k, 0)), DeleteFrom(t, k).used, q)
  {
    hide EncodeAll, Encode, MovedDown, FreeImage, WithoutFree, FreeCreated, Units, StopsBehind;
    MovedImage(t, k);
    var ps, free, gap: int := DeleteFrom(t, k).used, MovedFree(t, k), Units(AllOf(t)[k]);
    WipesMovedFree(ps, free, 16 * gap - 32, Tail(Image(t)));
    assert 16 * free + (16 * gap - 32) == 16 * 0x1_0000 - 32;
    LengthZero(ps, Tail(Image(t)), q);
  }

  lemma LengthZero(ps: seq<Partition>, tail: seq<byte>, q: Query)
    requires AllWellFormed(ps) && |tail| == 32 && |EncodeAll(ps)| + 16 * 0x1_0000 < 0x8000_0000 && q.kind != Some(0)
    ensures StopsBehind(FreeCreated(EncodeAll(ps) + Fill(0, 16 * 0x1_0000 - 32) + tail).0, ps, q)
  {
    hide EncodeAll, UsedSpace, WriteHeader, Created, PaddedLength, UnitsFor, Encode, StopsBehind;
    var end, name := |EncodeAll(ps)|, FreeName()[..10];
    var mem := EncodeAll(ps) + Fill(0, 16 * 0x1_0000 - 32) + tail;
    assert mem[0..end] == EncodeAll(ps) && mem[end] == 0 && PadIsZero(mem, end, name);
    UsedSpaceOfChain(mem, 0, ps);
    CreatedAt(mem, end, FREE_KIND, name, 16 * 0x1_0000 - HEADER);
    UnitsOf(0x1_0000);
    HeaderOfLengthZero(mem, ps, name, q);
  }

  /** The walks over `mem` end behind `ps`. */
  predicate StopsBehind(mem: seq<byte>, ps: seq<Partition>, q: Query)
    requires AllWellFormed(ps)
  {
    && UsedSpace(mem, 0) == |EncodeAll(ps)|
    && Lookup(mem, q, 0) == (match FirstMatch(ps, q) case None => NO_PARTITION case Some(i) => HandleOf(ps, i, 0))
    && Hangs(mem, Query(Some(0), None), 0)
  }

  lemma HeaderOfLengthZero(mem: seq<byte>, ps: seq<Partition>, name: seq<byte>, q: Query)
    requires AllWellFormed(ps) && |EncodeAll(ps)| < |mem| && mem[..|EncodeAll(ps)|] == EncodeAll(ps)
    requires PadIsZero(mem, |EncodeAll(ps)|, name) && q.kind != Some(0)
    ensures StopsBehind(WriteHeader(mem, |EncodeAll(ps)|, FREE_KIND, 0, name), ps, q)
  {
    hide EncodeAll, UsedSpace, WriteHeader, Encode, ChecksumAt, FirstMatch;
    var end, any := |EncodeAll(ps)|, Query(Some(0), None);
    var made := WriteHeader(mem, end, FREE_KIND, 0, name);
    NoFreeLength(mem, ps, name);
    WritesLengthZero(mem, end, FREE_KIND, name);
    WritesChecksum(mem, end, FREE_KIND, name);
    assert made[0..end] == EncodeAll(ps);
    LookupInChain(made, 0, ps, q);
    LookupInChain(made, 0, ps, any);
    NoTypeZero(ps, any);
  }

  lemma NoTypeZero(ps: seq<Partition>, q: Query)
    requires AllWellFormed(ps) && q.kind == Some(0)
    ensures FirstMatch(ps, q) == None
  {
  }

  lemma WritesChecksum(mem: seq<byte>, off: nat, kind: byte, name: seq<byte>)
    requires PadIsZero(mem, off, name)
    ensures var made := WriteHeader(mem, off, kind, 0, name);
            At(made, off) == kind && At(made, off + 1) == ChecksumAt(made, off)
  {
    hide Checksum, WriteBytesAt, Pad;
    var plain := [kind, mem[off + 1]] + Be16(0) + Pad(name);
    WritesPlainHeader(mem, off, kind, name, 0);
    WindowOfPatch(mem, off, plain);
    PatchThenByte(mem, off, plain, 1, Checksum(plain));
    var h := plain[1 := Checksum(plain)];
    WindowOfPatch(mem, off, h);
    SameChecksum(plain, h);
  }

  const JS2X_LOG0 := 0x2000
  const JS2X_LOG1 := 0x500

  /** The table behind a reset of the 1 MB of the js2x board and the deletion of both log partitions. */
  function OnlyCommon(): (t: Table)
    ensures Valid(t) && t.free == 0xff00 && |t.used| == 1 && Units(t.used[0]) == COMMON_UNITS
  {
    Table([NewPartition(COMMON_KIND, CommonName(), COMMON_UNITS)], 0xff00)
  }

  lemma LogsDeleted()
    ensures ResetFits(0x1_0000, JS2X_LOG0, JS2X_LOG1)
    ensures var log := Delete(Query(Some(LOG_KIND), None));
            RunTable(ResetTable(0x1_0000, JS2X_LOG0, JS2X_LOG1), [log, log]) == Some(OnlyCommon())
    ensures |Image(OnlyCommon())| == 0x10_0000
  {
    hide Image, NewPartition, LogPartition, Allowed, Apply, Victim;
    var q := Query(Some(LOG_KIND), None);
    var t0, log := ResetTable(0x1_0000, JS2X_LOG0, JS2X_LOG1), Delete(q);
    var t1 := Table(t0.used[1..], 0xfa00);
    ResetLength(0x1_0000, JS2X_LOG0, JS2X_LOG1);
    FirstGoes(t0, q);
    ApplyIsValid(t0, log);
    FirstGoes(t1, q);
    ApplyIsValid(t1, log);
    assert t1.used[1..] == OnlyCommon().used;
    assert [log, log][1..] == [log] && [log][1..] == [];
    assert RunTable(t1, [log]) == RunTable(OnlyCommon(), []);
  }

  /** The 1 MB of the js2x board are enough for that: after the reset and both deletions, deleting "common"
      too leaves an NVRAM in which no lookup finds anything. */
  lemma OneMegabyte(q: Query)
    requires q.kind != Some(0)
    ensures var log, t := Delete(Query(Some(LOG_KIND), None)), OnlyCommon();
            && ResetFits(0x1_0000, JS2X_LOG0, JS2X_LOG1)
            && RunTable(ResetTable(0x1_0000, JS2X_LOG0, JS2X_LOG1), [log, log]) == Some(t)
            && Inside(Image(t), HandleOf(AllOf(t), 0, 0))
            && var mem := Deleted(Image(t), HandleOf(AllOf(t), 0, 0));
               UsedSpace(mem, 0) == 0 && Lookup(mem, q, 0) == NO_PARTITION && Hangs(mem, Query(Some(0), None), 0)
  {
    hide Deleted, UsedSpace, Lookup, Hangs, Encode, EncodeAll, Image, Inside, OnlyCommon, RunTable;
    LogsDeleted();
    var t := OnlyCommon();
    assert AllOf(t)[0] == t.used[0];
    assert t.used[..0] + t.used[1..] == [];
    FreeSpaceIsLost(t, 0, q);
    EmptyChain();
  }

  lemma FirstGoes(t: Table, q: Query)
    requires Valid(t) && t.free >= 3 && t.used != [] && Matches(q, t.used[0].kind, t.used[0].name)
    requires t.used[0].data != [] && t.free + Units(t.used[0]) <= 0xffff
    ensures Victim(t, q) == Some(0) && Allowed(t, Delete(q))
    ensures Apply(t, Delete(q)) == Table(t.used[1..], t.free + Units(t.used[0]))
  {
    hide Image, StaleVanishes;
    assert AllOf(t)[0] == t.used[0];
    LargeFreeVanishes(t, 0);
    assert t.used[..0] + t.used[1..] == t.used[1..];
  }

  /** In a full NVRAM the stale bytes of another partition may vanish although they are not zero. */
  lemma StaleBytesMayVanish(a: Partition, b: Partition)
    requires WellFormed(a) && WellFormed(b) && a.kind != FREE_KIND && b.kind != FREE_KIND
    requires Units(a) == 2 && b.data == [0, 1] + Fill(0, 30)
    ensures var t := Table([a, b], 0);
            && Valid(t) && |Image(t)| >= 32 && Tail(Image(t)) != Fill(0, 32)
            && DeleteFrom(t, 0) == Table([b], 0 + 2) && StaleVanishes(t, 0)
  {
    hide Vanishes, Encode, EncodeAll, Image;
    var t := Table([a, b], 0);
    LastBytes(a, b);
    assert b.data[1] == 1;
    assert t.used[..0] + t.used[1..] == [b];
    assert AllOf(t)[0] == a;
    BadChecksumVanishes(b.data);
  }

  lemma LastBytes(a: Partition, b: Partition)
    requires WellFormed(a) && WellFormed(b) && a.kind != FREE_KIND && b.kind != FREE_KIND && |b.data| == 32
    ensures |Image(Table([a, b], 0))| >= 32 && Tail(Image(Table([a, b], 0))) == b.data
  {
    hide Header;
    OneChain(a);
    OneChain(b);
    EncodeAppends([a], [b]);
    assert [a] + [b] == [a, b];
  }

  lemma BadChecksumVanishes(tail: seq<byte>)
    requires tail == [0, 1] + Fill(0, 30)
    ensures Vanishes(tail)
  {
    hide Checksum;
    ZeroChecksum();
    assert Window(tail, 0) == [0, 1] + Fill(0, 14);
    SameChecksum(Window(tail, 0), Fill(0, HEADER));
    assert !Checksummed(tail, 0);
    NothingErased(tail);
    assert WithoutFree(tail) == tail && tail[14..] == Fill(0, 18);
  }

  /** In a full NVRAM the last partition, if it has 16 bytes of contents, is not deleted at all: all of it is
      among the stale bytes. */
  lemma LastSmallStays(t: Table)
    requires Valid(t) && t.free == 0 && |Image(t)| < 0x8000_0000
    requires t.used != [] && Units(t.used[|t.used| - 1]) == 2
    ensures Inside(Image(t), HandleOf(t.used, |t.used| - 1, 0))
    ensures Deleted(Image(t), HandleOf(t.used, |t.used| - 1, 0)) == Image(t)
  {
    hide Encode, EncodeAll, UsedSpace, Created;
    var k, mem := |t.used| - 1, Image(t);
    Parts(t, k);
    MovedImage(t, k);
    assert t.used[k + 1..] == [];
    EmptyChain();
    assert mem == EncodeAll(t.used[..k]) + Encode(t.used[k]) + [] + [];
    assert EncodeAll(Without(t, k)) + FreeImage(0) + Fill(0, 0) + Tail(mem) == mem;
    LookupFree(t);
    NothingErased(mem);
    ImageTiles(t);
    NothingToFree(mem, FreeName()[..10]);
  }
}
