/** delete_nvram_partition of lib/libnvram/nvram.c: what its memory steps make of the image of a partition
    table, and exactly when that is the image of the table without the partition. */
module NvramDelete {
  import opened Bytes
  import opened NvramLayout
  import opened NvramTable

  /** The table without partition `k`: the later ones move down and its space becomes free. Without the free
      partition, that is the same table. */
  function DeleteFrom(t: Table, k: nat): Table
    requires Valid(t) && k < |AllOf(t)|
  {
    if k == |t.used| then t else Table(t.used[..k] + t.used[k + 1..], t.free + Units(t.used[k]))
  }

  // ----- the memory steps

  /** The first half of delete_nvram_partition: everything from `end` on moves down by `gap` bytes, and the
      space behind it is erased up to the last 32 bytes, which keep what they had. */
  function MovedDown(mem: seq<byte>, end: nat, gap: nat): (r: seq<byte>)
    requires 32 <= gap <= end <= |mem|
    ensures |r| == |mem|
  {
    seq<byte>(|mem|, i requires 0 <= i < |mem| =>
      if i < end - gap then mem[i]
      else if i < |mem| - gap then mem[i + gap]
      else if i < |mem| - 32 then 0
      else mem[i])
  }

  /** The lookup and the wipe of the free partition. */
  function WithoutFree(mem: seq<byte>): (r: seq<byte>)
    ensures |r| == |mem|
  {
    var h := Lookup(mem, FREE_QUERY, 0);
    Erased(mem, h.addr - HEADER, HEADER + h.len)
  }

  /** A handle that get_partition can return for a partition with contents. */
  predicate Inside(mem: seq<byte>, h: Handle) { h.len >= 16 && h.addr >= HEADER && h.addr + h.len <= |mem| }

  /** delete_nvram_partition of a partition with contents. */
  function Deleted(mem: seq<byte>, h: Handle): (r: seq<byte>)
    requires Inside(mem, h)
    ensures |r| == |mem|
  {
    FreeCreated(WithoutFree(MovedDown(mem, h.addr + h.len, h.len + HEADER))).0
  }

  // ----- moving down

  /** The units of the free partition that moves down when partition `k` is deleted. */
  function MovedFree(t: Table, k: nat): (units: nat)
    requires Valid(t) && k < |AllOf(t)|
    ensures units <= 0xffff && DeleteFrom(t, k).free == units + Units(AllOf(t)[k])
  {
    if k == |t.used| then 0 else t.free
  }

  /** The last 32 bytes of the NVRAM, which delete_nvram_partition leaves where they are. */
  function Tail(mem: seq<byte>): (s: seq<byte>)
    requires |mem| >= 32
    ensures |s| == 32
  {
    mem[|mem| - 32..]
  }

  /** The partitions in use that remain. */
  function Without(t: Table, k: nat): seq<Partition>
    requires Valid(t) && k < |t.used|
  {
    t.used[..k] + t.used[k + 1..]
  }

  lemma Parts(t: Table, k: nat)
    requires Valid(t) && k < |t.used|
    ensures AllWellFormed(t.used[..k]) && AllWellFormed(t.used[k + 1..])
    ensures Valid(Table(Without(t, k), 0)) && AllWellFormed(Without(t, k))
    ensures EncodeAll(Without(t, k)) == EncodeAll(t.used[..k]) + EncodeAll(t.used[k + 1..])
    ensures EncodeAll(t.used) == EncodeAll(t.used[..k]) + Encode(t.used[k]) + EncodeAll(t.used[k + 1..])
    ensures |EncodeAll(t.used)| == |EncodeAll(Without(t, k))| + 16 * Units(t.used[k])
  {
    hide Encode;
    var a, p, b := t.used[..k], t.used[k], t.used[k + 1..];
    assert t.used == a + [p] + b;
    EncodeAppends(a, b);
    EncodeAppends(a, [p]);
    EncodeAppends(a + [p], b);
    OneChain(p);
  }

  /** The memory behind the moving loop: the remaining partitions, the moved free partition, zeros, and the
      stale last 32 bytes. */
  lemma MovedImage(t: Table, k: nat)
    requires Valid(t) && k < |AllOf(t)| && Units(AllOf(t)[k]) >= 2
    ensures Valid(Table(DeleteFrom(t, k).used, 0)) && Inside(Image(t), HandleOf(AllOf(t), k, 0))
    ensures |EncodeAll(DeleteFrom(t, k).used)| + 16 * DeleteFrom(t, k).free == |Image(t)|
    ensures var mem, h, zeros := Image(t), HandleOf(AllOf(t), k, 0), 16 * Units(AllOf(t)[k]) - 32;
            MovedDown(mem, h.addr + h.len, h.len + HEADER)
            == EncodeAll(DeleteFrom(t, k).used) + FreeImage(MovedFree(t, k)) + Fill(0, zeros) + Tail(mem)
  {
    hide Encode, EncodeAll;
    if k == |t.used| {
      assert AllOf(t)[..k] == t.used;
      MovedPieces(EncodeAll(t.used), Encode(AllOf(t)[k]), [], []);
      assert EncodeAll(t.used) + Encode(AllOf(t)[k]) + [] + [] == Image(t);
      assert EncodeAll(t.used) + [] + [] == EncodeAll(t.used) + FreeImage(0);
    } else {
      assert AllOf(t)[..k] == t.used[..k];
      Parts(t, k);
      MovedPieces(EncodeAll(t.used[..k]), Encode(t.used[k]), EncodeAll(t.used[k + 1..]), FreeImage(t.free));
    }
  }

  lemma MovedPieces(a: seq<byte>, p: seq<byte>, b: seq<byte>, f: seq<byte>)
    requires |p| >= 32
    ensures var mem := a + p + b + f;
            MovedDown(mem, |a| + |p|, |p|) == a + b + f + Fill(0, |p| - 32) + Tail(mem)
  {
  }

  // ----- wiping the moved free partition

  lemma LookupZero(mem: seq<byte>, q: Query, off: nat)
    requires off + HEADER <= |mem| && mem[off..off + HEADER] == Fill(0, HEADER) && q.kind != Some(0)
    ensures Lookup(mem, q, off) == NO_PARTITION
  {
    assert forall i :: off <= i < off + HEADER ==> mem[i] == mem[off..off + HEADER][i - off] == 0;
    assert mem[off + 2..off + 4] == [0, 0];
  }

  /** In the moved image the free partition is found where it now is. */
  lemma LookupMovedFree(ps: seq<Partition>, free: nat, rest: seq<byte>)
    requires Valid(Table(ps, free)) && (free == 0 ==> |rest| >= HEADER && rest[..HEADER] == Fill(0, HEADER))
    ensures Lookup(EncodeAll(ps) + FreeImage(free) + rest, FREE_QUERY, 0) ==
            if free == 0 then NO_PARTITION else Handle(|EncodeAll(ps)| + HEADER, 16 * free - HEADER)
  {
    hide Encode, Lookup, EncodeAll;
    var t, mem := Table(ps, free), EncodeAll(ps) + FreeImage(free) + rest;
    ImageIsChain(t);
    FirstFree(t);
    assert mem[0..|Image(t)|] == Image(t);
    LookupInChain(mem, 0, AllOf(t), FREE_QUERY);
    if free == 0 {
      assert mem[|EncodeAll(ps)|..][..HEADER] == rest[..HEADER];
      LookupZero(mem, FREE_QUERY, |EncodeAll(ps)|);
    } else {
      assert AllOf(t)[..|ps|] == ps;
    }
  }

  /** The wipe leaves zeros up to the stale tail. */
  lemma WipesMovedFree(ps: seq<Partition>, free: nat, zeros: nat, tail: seq<byte>)
    requires Valid(Table(ps, free)) && (free >= 1 || zeros >= HEADER)
    ensures WithoutFree(EncodeAll(ps) + FreeImage(free) + Fill(0, zeros) + tail)
            == EncodeAll(ps) + Fill(0, 16 * free + zeros) + tail
  {
    hide Lookup, EncodeAll, Encode, FreeImage, Erased;
    var e, mem := EncodeAll(ps), EncodeAll(ps) + FreeImage(free) + Fill(0, zeros) + tail;
    assert mem == e + FreeImage(free) + (Fill(0, zeros) + tail);
    assert free == 0 ==> (Fill(0, zeros) + tail)[..HEADER] == Fill(0, HEADER);
    LookupMovedFree(ps, free, Fill(0, zeros) + tail);
    if free == 0 {
      NothingErased(mem);
      NoFreeImage();
      assert e + [] == e;
    } else {
      WipedMoved(e, free, zeros, tail);
    }
  }

  lemma NothingErased(mem: seq<byte>)
    ensures Erased(mem, NO_PARTITION.addr - HEADER, HEADER + NO_PARTITION.len) == mem
  {
  }

  lemma NoFreeImage()
    ensures FreeImage(0) == []
  {
  }

  lemma WipedMoved(e: seq<byte>, free: nat, zeros: nat, tail: seq<byte>)
    requires free <= 0xffff
    ensures Erased(e + FreeImage(free) + Fill(0, zeros) + tail, |e|, 16 * free) == e + Fill(0, 16 * free + zeros) + tail
  {
    hide Encode;
  }

  // ----- the new free partition

  /** create_free_partition behind the remaining partitions covers the rest of memory, stale bytes included:
      with zeros in front of them the result is an image exactly if they are zero. */
  lemma FreeOverTail(ps: seq<Partition>, units: nat, tail: seq<byte>)
    requires Valid(Table(ps, units)) && units >= 3 && |tail| == 32
    requires |EncodeAll(ps)| + 16 * units < 0x1_0000_0000
    ensures var mem := EncodeAll(ps) + Fill(0, 16 * units - 32) + tail;
            FreeCreated(mem).0 == Image(Table(ps, units)) <==> tail == Fill(0, 32)
  {
    hide Encode, EncodeAll, Header, UsedSpace, WriteHeader, Created, PaddedLength, Image, Patch, Pad, UnitsFor;
    var end, name := |EncodeAll(ps)|, FreeName()[..10];
    var mem := EncodeAll(ps) + Fill(0, 16 * units - 32) + tail;
    assert mem[0..end] == EncodeAll(ps) && mem[end] == 0 && PadIsZero(mem, end, name);
    UsedSpaceOfChain(mem, 0, ps);
    CreatedAt(mem, end, FREE_KIND, name, 16 * units - HEADER);
    UnitsOf(units);
    WritesHeader(mem, end, FREE_KIND, name, units);
    FreeNamePadded();
    PatchedTail(EncodeAll(ps), Header(FreePartition(units)), 16 * units - 32, tail);
    ImageBody(ps, units);
  }

  lemma ImageBody(ps: seq<Partition>, units: nat)
    requires Valid(Table(ps, units)) && units >= 1
    ensures Image(Table(ps, units)) == EncodeAll(ps) + (Header(FreePartition(units)) + Fill(0, 16 * units - HEADER))
  {
    hide Header;
  }

  lemma PatchedTail(e: seq<byte>, h: seq<byte>, zeros: nat, tail: seq<byte>)
    requires |h| == HEADER <= zeros && |tail| == 32
    ensures Patch(e + Fill(0, zeros) + tail, |e|, h) == e + (h + Fill(0, zeros + 16)) <==> tail == Fill(0, 32)
  {
    var a, b := Patch(e + Fill(0, zeros) + tail, |e|, h), e + (h + Fill(0, zeros + 16));
    assert a[|a| - 32..] == tail;
    assert b[|b| - 32..] == Fill(0, 32);
  }

  // ----- nothing but stale bytes behind the remaining partitions

  /** A walk behind other memory is the walk of its own, moved. */
  lemma {:induction false} LookupBehind(e: seq<byte>, s: seq<byte>, q: Query, i: nat)
    ensures var h := Lookup(s, q, i);
            Lookup(e + s, q, |e| + i) == if h == NO_PARTITION then h else Handle(|e| + h.addr, h.len)
    ensures Lookup(s, q, i) == NO_PARTITION || Lookup(s, q, i).addr >= i + HEADER
    decreases |s| - i
  {
    hide Checksum, Matches;
    if i < |s| {
      SameWindow(e, s, i);
      var units: int := WordAt(s, i + 2);
      if units != 0 { LookupBehind(e, s, q, i + 16 * units); }
    }
  }

  lemma {:induction false} UsedBehind(e: seq<byte>, s: seq<byte>, i: nat)
    ensures UsedSpace(e + s, |e| + i) == |e| + UsedSpace(s, i) && UsedSpace(s, i) >= i
    decreases |s| - i
  {
    hide Checksum;
    if i < |s| {
      SameWindow(e, s, i);
      var units: int := WordAt(s, i + 2);
      if units != 0 { UsedBehind(e, s, i + 16 * units); }
    }
  }

  lemma SameWindow(e: seq<byte>, s: seq<byte>, i: nat)
    ensures Window(e + s, |e| + i) == Window(s, i) && WordAt(e + s, |e| + i + 2) == WordAt(s, i + 2)
    ensures At(e + s, |e| + i) == At(s, i) && At(e + s, |e| + i + 1) == At(s, i + 1)
  {
    if i + 4 <= |s| { assert (e + s)[|e| + i + 2..|e| + i + 4] == s[i + 2..i + 4]; }
  }

  /** The stale bytes do not matter: what the wipe leaves of them ends the walk of calc_used_nvram_space, and
      is zero where create_free_partition does not write. */
  predicate Vanishes(tail: seq<byte>)
    requires |tail| == 32
  {
    var rest := WithoutFree(tail);
    UsedSpace(rest, 0) == 0 && rest[14..] == Fill(0, 18)
  }

  lemma WipeBehind(ps: seq<Partition>, tail: seq<byte>)
    requires Valid(Table(ps, 0))
    ensures WithoutFree(EncodeAll(ps) + tail) == EncodeAll(ps) + WithoutFree(tail)
  {
    hide Encode, EncodeAll, Lookup;
    var e, mem := EncodeAll(ps), EncodeAll(ps) + tail;
    FirstFree(Table(ps, 0));
    assert mem[0..|e|] == e;
    LookupInChain(mem, 0, ps, FREE_QUERY);
    LookupBehind(e, tail, FREE_QUERY, 0);
  }

  lemma {:induction false} WriteBytesKeeps(mem: seq<byte>, i: nat, s: seq<byte>, j: nat)
    requires j < |mem| && !(i <= j < i + |s|)
    ensures WriteBytesAt(mem, i, s)[j] == mem[j]
    decreases |s|
  {
    if s != [] { WriteBytesKeeps(WriteByteAt(mem, i, s[0]), i + 1, s[1..], j); }
  }

  lemma WriteHeaderKeeps(mem: seq<byte>, off: nat, kind: byte, units: uint16, name: seq<byte>, j: nat)
    requires j < |mem| && !(off <= j < off + 4 + |name|)
    ensures WriteHeader(mem, off, kind, units, name)[j] == mem[j]
  {
    hide ChecksumAt, WriteBytesAt;
    WriteBytesKeeps(WriteWordAt(WriteByteAt(mem, off, kind), off + 2, units), off + 4, name, j);
  }

  /** A free partition at the start of the stale bytes does not survive the wipe. */
  lemma NoFreeLeft(tail: seq<byte>)
    requires |tail| == 32 && UsedSpace(WithoutFree(tail), 0) > 0
    ensures WithoutFree(tail)[..HEADER] != Header(FreePartition(2))
  {
    hide Header, ChecksumAt;
    var rest, f := WithoutFree(tail), FreePartition(2);
    if rest[..HEADER] == Header(f) {
      assert rest[0..HEADER] == rest[..HEADER];
      ReadHeader(rest, 0, f);
      LookupBehind([], tail, FREE_QUERY, 0);
      assert rest[0] != 0;
      if Lookup(tail, FREE_QUERY, 0).addr != HEADER {
        SkipsFirst(tail);
        assert tail[0..HEADER] == rest[0..HEADER];
        ReadHeader(tail, 0, f);
      }
    }
  }

  lemma SkipsFirst(tail: seq<byte>)
    requires |tail| == 32 && Lookup(tail, FREE_QUERY, 0).addr != HEADER
    ensures Lookup(tail, FREE_QUERY, 0) == NO_PARTITION || Lookup(tail, FREE_QUERY, 0).addr >= 2 * HEADER
    ensures WithoutFree(tail)[0..HEADER] == tail[0..HEADER]
  {
    hide ChecksumAt, Matches;
    var units: int := WordAt(tail, 2);
    if units != 0 { LookupBehind([], tail, FREE_QUERY, 16 * units); }
  }

  /** A deletion that moves nothing but the stale bytes in behind the remaining partitions. */
  lemma OnlyStale(ps: seq<Partition>, tail: seq<byte>)
    requires Valid(Table(ps, 2)) && |tail| == 32 && |EncodeAll(ps)| + 32 < 0x8000_0000
    ensures FreeCreated(WithoutFree(EncodeAll(ps) + tail)).0 == Image(Table(ps, 2)) <==> Vanishes(tail)
  {
    hide Encode, EncodeAll, Header, UsedSpace, WriteHeader, Created, PaddedLength, Image, UnitsFor, WithoutFree;
    var e, rest := EncodeAll(ps), WithoutFree(tail);
    WipeBehind(ps, tail);
    var mem, made := e + rest, FreeCreated(e + rest).0;
    assert mem[0..|e|] == e;
    UsedSpaceOfChain(mem, 0, ps);
    UsedBehind(e, rest, 0);
    ImageBody(ps, 2);
    if UsedSpace(rest, 0) == 0 {
      UnitsOf(2);
      CreatedAt(mem, |e|, FREE_KIND, FreeName()[..10], 16);
      OnlyStaleHeader(e, rest);
    } else {
      assert made[|e|..|e| + HEADER] == rest[..HEADER] by { FreeBehind(e, rest); }
      NoFreeLeft(tail);
      assert Image(Table(ps, 2))[|e|..|e| + HEADER] == Header(FreePartition(2));
    }
  }

  /** Creation does not write in front of the used space. */
  lemma CreatedKeeps(mem: seq<byte>, kind: byte, name: seq<byte>, len: uint32, j: nat)
    requires j < UsedSpace(mem, 0) && j < |mem|
    ensures Created(mem, kind, name, len).0[j] == mem[j]
  {
    hide UsedSpace, WriteHeader, PaddedLength;
    WriteHeaderKeeps(mem, UsedSpace(mem, 0), kind, PaddedLength(len) / 16 % 0x1_0000, name, j);
  }

  lemma FreeBehind(e: seq<byte>, rest: seq<byte>)
    requires |rest| == 32 && UsedSpace(e + rest, 0) == |e| + UsedSpace(rest, 0) && UsedSpace(rest, 0) > 0
    ensures FreeCreated(e + rest).0[|e|..|e| + HEADER] == rest[..HEADER]
  {
    hide UsedSpace, Created;
    UsedIsUnits(rest);
    var mem, made := e + rest, FreeCreated(e + rest).0;
    var len := (|mem| - UsedSpace(mem, 0) - HEADER) % 0x1_0000_0000;
    forall j | |e| <= j < |e| + HEADER
      ensures made[j] == mem[j]
    {
      CreatedKeeps(mem, FREE_KIND, FreeName()[..10], len, j);
    }
  }

  lemma UsedIsUnits(rest: seq<byte>)
    requires |rest| == 32 && UsedSpace(rest, 0) > 0
    ensures UsedSpace(rest, 0) >= HEADER
  {
    hide ChecksumAt;
    var units: int := WordAt(rest, 2);
    UsedBehind([], rest, 16 * units);
  }

  lemma OnlyStaleHeader(e: seq<byte>, rest: seq<byte>)
    requires |rest| == 32
    ensures WriteHeader(e + rest, |e|, FREE_KIND, 2, FreeName()[..10]) == e + (Header(FreePartition(2)) + Fill(0, 16))
            <==> rest[14..] == Fill(0, 18)
  {
    hide Header, WriteHeader;
    var mem, name, h := e + rest, FreeName()[..10], Header(FreePartition(2));
    if rest[14..] == Fill(0, 18) {
      assert forall i :: 14 <= i < 32 ==> rest[i] == rest[14..][i - 14] == 0;
      assert PadIsZero(mem, |e|, name);
      WritesHeader(mem, |e|, FREE_KIND, name, 2);
      FreeNamePadded();
    } else {
      var j :| 14 <= j < 32 && rest[j] != 0;
      WriteHeaderKeeps(mem, |e|, FREE_KIND, 2, name, |e| + j);
      assert (e + (h + Fill(0, 16)))[|e| + j] == 0 by { EndOfHeader(); }
    }
  }

  /** The name of the free partition leaves the last two bytes of its header zero. */
  lemma EndOfHeader()
    ensures Header(FreePartition(2))[14..] == [0, 0]
  {
  }

  // ----- the result

  /** What the stale last 32 bytes must be for partition `k` to be deleted without a trace. */
  predicate StaleVanishes(t: Table, k: nat)
    requires Valid(t) && k < |AllOf(t)|
  {
    && |Image(t)| >= 32
    && if MovedFree(t, k) == 0 && Units(AllOf(t)[k]) == 2 then Vanishes(Tail(Image(t)))
       else Tail(Image(t)) == Fill(0, 32)
  }

  /** delete_nvram_partition leaves the image of the table without the partition exactly if 16 bits hold the
      length of the new free partition and the stale bytes vanish. If its length is too great, the headers do
      not tile the memory any more. */
  lemma DeleteSteps(t: Table, k: nat)
    requires Valid(t) && |Image(t)| < 0x8000_0000 && k < |AllOf(t)| && AllOf(t)[k].data != []
    ensures Inside(Image(t), HandleOf(AllOf(t), k, 0))
    ensures var mem, t1 := Deleted(Image(t), HandleOf(AllOf(t), k, 0)), DeleteFrom(t, k);
            && (Valid(t1) <==> t1.free <= 0xffff)
            && (t1.free <= 0xffff ==> (mem == Image(t1) <==> StaleVanishes(t, k)))
            && (t1.free > 0xffff ==> UsedSpace(mem, 0) < |mem|)
  {
    hide EncodeAll, Encode, MovedDown, FreeImage, WithoutFree, FreeCreated, UsedSpace;
    MovedImage(t, k);
    var mem, t1, free, gap: int := Image(t), DeleteFrom(t, k), MovedFree(t, k), Units(AllOf(t)[k]);
    if free == 0 && gap == 2 {
      NoFreeImage();
      assert EncodeAll(t1.used) + [] + Fill(0, 0) + Tail(mem) == EncodeAll(t1.used) + Tail(mem);
      OnlyStale(t1.used, Tail(mem));
    } else {
      WipesMovedFree(t1.used, free, 16 * gap - 32, Tail(mem));
      assert 16 * free + (16 * gap - 32) == 16 * t1.free - 32;
      if t1.free <= 0xffff {
        FreeOverTail(t1.used, t1.free, Tail(mem));
      } else {
        FreeTooLong(t1.used, t1.free, Tail(mem));
      }
    }
  }

  /** A free partition of at least 48 bytes covers the stale bytes with zeros. */
  lemma LargeFreeVanishes(t: Table, k: nat)
    requires Valid(t) && t.free >= 3 && k < |AllOf(t)|
    ensures StaleVanishes(t, k)
  {
    hide Header, Vanishes;
    var mem := Image(t);
    assert Tail(mem) == Fill(0, 32);
  }
}
