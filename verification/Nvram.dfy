/** lib/libnvram/nvram.c in its own form: partition headers and contents written in place. */
module Nvram {
  import opened Bytes
  import opened NvramLayout
  import opened NvramTable
  import opened NvramDelete
  import opened NvramRuns

  class Memory {
    const mem: array<byte>

    /** The size is a multiple of 16 whose addresses fit an int. */
    ghost predicate Sized() { 16 <= mem.Length < 0x8000_0000 && mem.Length % 16 == 0 }

    constructor (mem: array<byte>)
      requires 16 <= mem.Length < 0x8000_0000 && mem.Length % 16 == 0
      ensures Sized() && this.mem == mem
    {
      this.mem := mem;
    }

    // ----- access

    /** nvram_read_byte. */
    method ReadByte(off: int) returns (v: byte)
      ensures v == At(mem[..], off)
    {
      if 0 <= off < mem.Length { v := mem[off]; } else { v := 0; }
    }

    /** nvram_read_word. */
    method ReadWord(off: int) returns (v: uint16)
      ensures v == WordAt(mem[..], off)
    {
      if 0 <= off <= mem.Length - 2 { v := FromBe16(mem[off..off + 2]); } else { v := 0; }
    }

    /** nvram_write_byte. */
    method WriteByte(off: int, v: byte)
      modifies mem
      ensures mem[..] == WriteByteAt(old(mem[..]), off, v)
    {
      if 0 <= off < mem.Length { mem[off] := v; }
    }

    /** nvram_write_word. */
    method WriteWord(off: int, v: uint16)
      modifies mem
      ensures mem[..] == WriteWordAt(old(mem[..]), off, v)
    {
      if 0 <= off <= mem.Length - 2 { Store(mem, off, Be16(v)); }
    }

    // ----- walks

    /** calc_partition_header_checksum. */
    method CalcChecksum(off: nat) returns (checksum: byte)
      ensures checksum == ChecksumAt(mem[..], off)
    {
      ghost var w := Window(mem[..], off);
      var first := ReadByte(off);
      var plain: int := first;
      SumBound(w, 2);
      var i := 2;
      while i < HEADER
        invariant 2 <= i <= HEADER && 0 <= plain && plain + Sum(w, i) == w[0] as int + Sum(w, 2)
      {
        var b := ReadByte(off + i);
        plain := (plain + b as int) % 0x1_0000;
        i := i + 1;
      }
      checksum := (plain / 0x100 + plain % 0x100) % 0x100;
    }

    /** calc_used_nvram_space. */
    method CalcUsed() returns (walk: nat)
      ensures walk == UsedSpace(mem[..], 0)
    {
      hide ChecksumAt;
      walk := 0;
      while walk < mem.Length
        invariant UsedSpace(mem[..], 0) == UsedSpace(mem[..], walk)
        decreases mem.Length - walk
      {
        var kind := ReadByte(walk);
        var stored := ReadByte(walk + 1);
        var computed := CalcChecksum(walk);
        if kind == 0 || stored != computed {
          break;
        }
        var len := ReadWord(walk + 2);
        if len == 0 {
          break;
        }
        walk := walk + 16 * (len as int);
      }
    }

    /** get_partition, where it returns. */
    method GetPartition(q: Query) returns (h: Handle)
      requires !Hangs(mem[..], q, 0)
      ensures h == Lookup(mem[..], q, 0)
    {
      hide ChecksumAt, Matches;
      var walk: nat := 0;
      h := NO_PARTITION;
      while walk < mem.Length
        invariant Lookup(mem[..], q, 0) == Lookup(mem[..], q, walk) && h == NO_PARTITION
        invariant !Hangs(mem[..], q, walk)
        decreases mem.Length - walk
      {
        var stored := ReadByte(walk + 1);
        var computed := CalcChecksum(walk);
        if stored != computed {
          break;
        }
        var len := ReadWord(walk + 2);
        if q.kind != Some(0) && len == 0 {
          break;
        }
        var kind := ReadByte(walk);
        var name := GetName(walk);
        if !Matches(q, kind, name) {
          walk := walk + 16 * (len as int);
          continue;
        }
        h := Handle(walk + HEADER, (16 * (len as int) - HEADER) % 0x1_0000_0000);
        return;
      }
    }

    /** get_partition_name. */
    method GetName(off: nat) returns (name: seq<byte>)
      ensures name == Window(mem[..], off)[4..]
    {
      name := [];
      var i := 0;
      while i < 12
        invariant 0 <= i <= 12 && name == Window(mem[..], off)[4..4 + i]
      {
        var b := ReadByte(off + 4 + i);
        name := name + [b];
        i := i + 1;
      }
    }

    // ----- writing

    /** erase_nvram. */
    method Erase(off: int, len: int)
      modifies mem
      ensures mem[..] == Erased(old(mem[..]), off, len)
    {
      var i := off;
      while i < off + len
        invariant off <= i && (i <= off + len || i == off)
        invariant mem[..] == Erased(old(mem[..]), off, i - off)
      {
        WriteByte(i, 0);
        i := i + 1;
      }
    }

    /** wipe_partition. */
    method Wipe(h: Handle, headerOnly: bool)
      modifies mem
      ensures mem[..] == Erased(old(mem[..]), h.addr - HEADER, if headerOnly then HEADER else HEADER + h.len)
    {
      var len := HEADER;
      if !headerOnly {
        len := len + h.len;
      }
      Erase(h.addr - HEADER, len);
    }

    /** The header writes of create_nvram_partition. */
    method PutHeader(offset: nat, kind: byte, units: uint16, name: seq<byte>)
      modifies mem
      ensures mem[..] == WriteHeader(old(mem[..]), offset, kind, units, name)
    {
      hide ChecksumAt, At, WriteByteAt, WriteWordAt;
      WriteByte(offset, kind);
      WriteWord(offset + 2, units);
      ghost var before := mem[..];
      var i := 0;
      assert name[0..] == name;
      while i < |name|
        invariant 0 <= i <= |name|
        invariant WriteBytesAt(mem[..], offset + 4 + i, name[i..]) == WriteBytesAt(before, offset + 4, name)
      {
        WriteByte(offset + 4 + i, name[i]);
        assert name[i..][1..] == name[i + 1..];
        i := i + 1;
      }
      var checksum := CalcChecksum(offset);
      WriteByte(offset + 1, checksum);
    }

    /** create_nvram_partition. */
    method Create(kind: byte, name: seq<byte>, len: uint32) returns (h: Handle)
      modifies mem
      ensures (mem[..], h) == Created(old(mem[..]), kind, name, len)
    {
      hide ChecksumAt, UsedSpace, WriteHeader, PaddedLength;
      var plen := PaddedLength(len);
      var offset := CalcUsed();
      if (mem.Length - offset) % 0x1_0000_0000 < plen {
        return Handle(0, 0);
      }
      PutHeader(offset, kind, plen / 16 % 0x1_0000, name);
      h := Handle(offset + HEADER, len);
    }

    /** create_free_partition. */
    method CreateFree() returns (created: bool)
      modifies mem
      ensures mem[..] == FreeCreated(old(mem[..])).0 && created == (FreeCreated(old(mem[..])).1.addr != 0)
    {
      hide UsedSpace, Created;
      var used := CalcUsed();
      var freeSpace := mem.Length - used - HEADER;
      var h := Create(FREE_KIND, FreeName()[..10], freeSpace % 0x1_0000_0000);
      created := h.addr != 0;
    }

    // ----- the operations on the partition table

    /** new_nvram_partition. On success the partition is there with the wanted length and zero contents;
        on failure the table is unchanged. */
    method NewPartition(ghost t: Table, kind: byte, name: seq<byte>, len: nat) returns (h: Handle)
      requires Sized() && NvramLayout.Valid(t) && mem[..] == Image(t)
      requires kind != 0 && kind != FREE_KIND && IsName(name) && len < 0x8000_0000
      modifies mem
      ensures NvramLayout.Valid(NewIn(t, kind, name, len).0)
      ensures mem[..] == Image(NewIn(t, kind, name, len).0) && h == NewIn(t, kind, name, len).1
    {
      hide Created, FreeCreated, Lookup, EncodeAll, Image, Erased, NewIn;
      LookupFree(t);
      NewSteps(t, kind, name, len);
      OnlyTypeZeroHangs(mem[..], FREE_QUERY, 0);
      var freePart := GetPartition(FREE_QUERY);
      if freePart.len != 0 && freePart.len != -1 {
        Wipe(freePart, true);
      }
      assert mem[..] == Wiped(t);
      h := Create(kind, name, len);
      if h.len != len {
        h := Handle(0, 0);
      }
      var freed := CreateFree();
    }

    /** A lookup in a valid table returns the first matching partition; for type 0 there is none. */
    method Find(ghost t: Table, q: Query) returns (h: Handle)
      requires Sized() && NvramLayout.Valid(t) && mem[..] == Image(t)
      ensures h == match FirstMatch(AllOf(t), q)
                   case None => NO_PARTITION
                   case Some(k) => HandleOf(AllOf(t), k, 0)
    {
      hide Lookup, Hangs, EncodeAll, Encode;
      LookupInImage(t, q);
      h := GetPartition(q);
    }

    /** The moving loop and the erasure of delete_nvram_partition. */
    method MoveDown(h: Handle)
      requires Sized() && h.len >= 16 && h.addr >= HEADER && h.addr + h.len <= mem.Length
      modifies mem
      ensures mem[..] == MovedDown(old(mem[..]), h.addr + h.len, h.len + HEADER)
    {
      hide Patch, Erased, MovedDown, At, WriteByteAt;
      ghost var m, end, gap := mem[..], h.addr + h.len, h.len + HEADER;
      NothingMoved(m, end, gap);
      var i := h.addr + h.len;
      while i < mem.Length
        invariant end <= i <= mem.Length && mem[..] == Patch(m, end - gap, m[end..i])
      {
        var b := ReadByte(i);
        WriteByte(i - h.len - HEADER, b);
        MovesOneMore(m, end, gap, i);
        i := i + 1;
      }
      Erase(mem.Length - h.len - HEADER, h.len - HEADER);
      MoveThenErase(m, end, gap);
    }

    /** delete_nvram_partition of the `k`-th partition. One without contents is not deleted. Otherwise the
        result is the image of the table without that partition exactly if 16 bits hold the length of the new
        free partition and the stale last 32 bytes vanish; and if its length is too great, the headers do not
        tile the memory any more. */
    method DeletePartition(ghost t: Table, ghost k: nat, h: Handle) returns (deleted: bool)
      requires Sized() && NvramLayout.Valid(t) && mem[..] == Image(t)
      requires k < |AllOf(t)| && h == HandleOf(AllOf(t), k, 0)
      modifies mem
      ensures deleted == (AllOf(t)[k].data != [])
      ensures !deleted ==> mem[..] == old(mem[..])
      ensures deleted ==> Inside(old(mem[..]), h) && mem[..] == Deleted(old(mem[..]), h)
      ensures deleted && DeleteFrom(t, k).free <= 0xffff ==>
                NvramLayout.Valid(DeleteFrom(t, k)) && (mem[..] == Image(DeleteFrom(t, k)) <==> StaleVanishes(t, k))
      ensures deleted && DeleteFrom(t, k).free > 0xffff ==> UsedSpace(mem[..], 0) < mem.Length
    {
      hide EncodeAll, Encode, MovedDown, FreeCreated, WithoutFree, Image, StaleVanishes, UsedSpace;
      if h.len == 0 || h.len == -1 {
        return false;
      }
      DeleteSteps(t, k);
      MoveDown(h);
      OnlyTypeZeroHangs(mem[..], FREE_QUERY, 0);
      var freePart := GetPartition(FREE_QUERY);
      WipeIs(mem[..]);
      Wipe(freePart, false);
      var freed := CreateFree();
      return true;
    }

    /** nvram_write_dword. */
    method WriteDword(off: int, v: uint32)
      requires 0 <= off && off + 4 <= mem.Length
      modifies mem
      ensures mem[..] == Patch(old(mem[..]), off, Be32(v))
    {
      Store(mem, off, Be32(v));
    }

    /** init_cpulog_partition. */
    method InitLog(h: Handle)
      requires 0 <= h.addr && h.addr + 8 <= mem.Length
      modifies mem
      ensures mem[..] == Patch(old(mem[..]), h.addr, LogStart())
    {
      ghost var m := mem[..];
      WriteWord(h.addr, 0x40);
      WriteWord(h.addr + 2, 0);
      WriteDword(h.addr + 4, 1);
      PatchAppend(m, h.addr, Be16(0x40), Be16(0));
      PatchAppend(m, h.addr, Be16(0x40) + Be16(0), Be32(1));
    }

    /** reset_nvram, for a memory in which the three fixed partitions fit. If 16 bits do not hold the length
        of the rest, the headers do not tile the memory. */
    method Reset(log0: nat, log1: nat)
      requires Sized() && 2 <= log0 <= 0xffff && 2 <= log1 <= 0xffff
      requires 16 * (log0 + log1 + COMMON_UNITS) <= mem.Length
      modifies mem
      ensures ResetFits(mem.Length / 16, log0, log1) ==> mem[..] == Image(ResetTable(mem.Length / 16, log0, log1))
      ensures !ResetFits(mem.Length / 16, log0, log1) ==> UsedSpace(mem[..], 0) < mem.Length
    {
      hide EncodeAll, Chain, NvramLayout.NewPartition, LogPartition, UsedSpace, Created, Image;
      ghost var total := mem.Length / 16;
      var h0, h1 := CreateLogs(log0, log1);
      InitLogs(h0, h1, log0, log1);
      FinishReset(total, log0, log1);
    }

    /** The erasure, and the creation of the two log partitions. */
    method CreateLogs(log0: nat, log1: nat) returns (h0: Handle, h1: Handle)
      requires Sized() && 2 <= log0 <= 0xffff && 2 <= log1 <= 0xffff && 16 * (log0 + log1) <= mem.Length
      modifies mem
      ensures var a, b := NvramLayout.NewPartition(LOG_KIND, LogName(0), log0),
                          NvramLayout.NewPartition(LOG_KIND, LogName(1), log1);
              && AllWellFormed([a, b]) && mem[..] == Chain([a, b], mem.Length / 16 - log0 - log1)
              && h0.addr == |EncodeAll([])| + HEADER && h1.addr == |EncodeAll([a])| + HEADER
    {
      hide Created, EncodeAll, NvramLayout.NewPartition, Erased, Chain;
      ghost var total := mem.Length / 16;
      Erase(0, mem.Length);
      ZeroChain(mem[..], total);
      ghost var a := NvramLayout.NewPartition(LOG_KIND, LogName(0), log0);
      ghost var b := NvramLayout.NewPartition(LOG_KIND, LogName(1), log1);
      UnitsOf(log0);
      CreatedInChain([], total, LOG_KIND, LogName(0), log0 * 16 - HEADER);
      h0 := Create(LOG_KIND, LogName(0), log0 * 16 - HEADER);
      assert [] + [a] == [a];
      UnitsOf(log1);
      CreatedInChain([a], total - log0, LOG_KIND, LogName(1), log1 * 16 - HEADER);
      h1 := Create(LOG_KIND, LogName(1), log1 * 16 - HEADER);
      assert [a] + [b] == [a, b];
    }

    /** The creation of the common and the free partition. */
    method FinishReset(ghost total: nat, ghost log0: nat, ghost log1: nat)
      requires Sized() && 2 <= log0 <= 0xffff && 2 <= log1 <= 0xffff
      requires log0 + log1 + COMMON_UNITS <= total == mem.Length / 16
      requires var logs := [LogPartition(0, log0), LogPartition(1, log1)];
               AllWellFormed(logs) && mem[..] == Chain(logs, total - log0 - log1)
      modifies mem
      ensures ResetFits(total, log0, log1) ==> mem[..] == Image(ResetTable(total, log0, log1))
      ensures !ResetFits(total, log0, log1) ==> UsedSpace(mem[..], 0) < mem.Length
    {
      hide Created, FreeCreated, EncodeAll, NvramLayout.NewPartition, LogPartition, UsedSpace;
      ghost var logs := [LogPartition(0, log0), LogPartition(1, log1)];
      ghost var common := NvramLayout.NewPartition(COMMON_KIND, CommonName(), COMMON_UNITS);
      ghost var rest := total - log0 - log1 - COMMON_UNITS;
      UnitsOf(COMMON_UNITS);
      CreatedInChain(logs, total - log0 - log1, COMMON_KIND, CommonName(), COMMON_UNITS * 16 - HEADER);
      var h2 := Create(COMMON_KIND, CommonName(), COMMON_UNITS * 16 - HEADER);
      assert logs + [common] == [LogPartition(0, log0), LogPartition(1, log1), common];
      if rest <= 0xffff {
        FreeInChain(logs + [common], rest);
      } else {
        assert Fill(0, 16 * rest) == Fill(0, 16 * rest - 32) + Fill(0, 32);
        FreeTooLong(logs + [common], rest, Fill(0, 32));
        assert EncodeAll(logs + [common]) + Fill(0, 16 * rest - 32) + Fill(0, 32) == mem[..];
      }
      var freed := CreateFree();
    }

    /** The initialisation of the two log partitions. */
    method InitLogs(h0: Handle, h1: Handle, ghost log0: nat, ghost log1: nat)
      requires Sized() && 2 <= log0 <= 0xffff && 2 <= log1 <= 0xffff && 16 * (log0 + log1) <= mem.Length
      requires var a, b := NvramLayout.NewPartition(LOG_KIND, LogName(0), log0),
                           NvramLayout.NewPartition(LOG_KIND, LogName(1), log1);
               && AllWellFormed([a, b]) && mem[..] == Chain([a, b], mem.Length / 16 - log0 - log1)
               && h0.addr == |EncodeAll([])| + HEADER && h1.addr == |EncodeAll([a])| + HEADER
      modifies mem
      ensures var logs := [LogPartition(0, log0), LogPartition(1, log1)];
              AllWellFormed(logs) && mem[..] == Chain(logs, mem.Length / 16 - log0 - log1)
    {
      hide EncodeAll, Encode, Header, Chain, NvramLayout.NewPartition, LogPartition, LogStart;
      LogsWritten(mem.Length / 16 - log0 - log1, log0, log1);
      InitLog(h0);
      InitLog(h1);
    }

    /** A write into a partition, byte by byte. */
    method WriteBytes(at: nat, s: seq<byte>)
      requires at + |s| <= mem.Length
      modifies mem
      ensures mem[..] == Patch(old(mem[..]), at, s)
    {
      ghost var m := mem[..];
      var i := 0;
      while i < |s|
        invariant 0 <= i <= |s| && mem[..] == Patch(m, at, s[..i])
      {
        WriteByte(at + i, s[i]);
        assert mem[..] == Patch(m, at, s[..i + 1]);
        i := i + 1;
      }
      assert s[..|s|] == s;
    }

    /** A run of operations: the memory is always the image of the table. */
    method Run(ghost t: Table, ops: seq<Op>)
      requires Sized() && NvramLayout.Valid(t) && mem[..] == Image(t) && RunTable(t, ops).Some?
      modifies mem
      ensures NvramLayout.Valid(RunTable(t, ops).value) && mem[..] == Image(RunTable(t, ops).value)
    {
      hide Image, EncodeAll, NewIn, DeleteFrom, Matches, ResetTable, StaleVanishes, FirstMatch, UsedSpace, Deleted;
      var i := 0;
      ghost var now := t;
      assert ops[0..] == ops;
      while i < |ops|
        invariant 0 <= i <= |ops| && NvramLayout.Valid(now) && mem[..] == Image(now)
        invariant RunTable(t, ops) == RunTable(now, ops[i..]) && RunTable(now, ops[i..]).Some?
      {
        assert ops[i..][1..] == ops[i + 1..];
        ApplyIsValid(now, ops[i]);
        Do(now, ops[i]);
        now := Apply(now, ops[i]);
        i := i + 1;
      }
    }

    /** One operation of a run. */
    method Do(ghost t: Table, op: Op)
      requires Sized() && NvramLayout.Valid(t) && mem[..] == Image(t) && Allowed(t, op)
      modifies mem
      ensures NvramLayout.Valid(Apply(t, op)) && mem[..] == Image(Apply(t, op))
    {
      hide Image, EncodeAll, NewIn, DeleteFrom, ResetTable, StaleVanishes, FirstMatch, UsedSpace, Deleted, AllOf;
      ApplyIsValid(t, op);
      match op {
        case Reset(log0, log1) =>
          Reset(log0, log1);
        case New(kind, name, len) =>
          var h := NewPartition(t, kind, name, len);
        case Delete(q) =>
          var h := Find(t, q);
          if h != NO_PARTITION {
            var deleted := DeletePartition(t, FirstMatch(AllOf(t), q).value, h);
          }
        case Write(q, off, data) =>
          var h := Find(t, q);
          if h != NO_PARTITION {
            WriteIntoImage(t, FirstMatch(AllOf(t), q).value, off, data);
            WriteBytes(h.addr + off, data);
          }
      }
    }
  }

  /** The two writes of the log headers into the chain of the log partitions. */
  lemma LogsWritten(units: nat, log0: nat, log1: nat)
    requires 2 <= log0 <= 0xffff && 2 <= log1 <= 0xffff
    ensures var a, b := NvramLayout.NewPartition(LOG_KIND, LogName(0), log0),
                        NvramLayout.NewPartition(LOG_KIND, LogName(1), log1);
            var a1, b1, mem := LogPartition(0, log0), LogPartition(1, log1), Chain([a, b], units);
            var at0, at1 := |EncodeAll([])| + HEADER, |EncodeAll([a])| + HEADER;
            && AllWellFormed([a1, b1]) && at0 + 8 <= |mem| && at1 + 8 <= |mem|
            && Patch(Patch(mem, at0, LogStart()), at1, LogStart()) == Chain([a1, b1], units)
  {
    hide EncodeAll, Encode, Header, Chain;
    var a := NvramLayout.NewPartition(LOG_KIND, LogName(0), log0);
    var b := NvramLayout.NewPartition(LOG_KIND, LogName(1), log1);
    var a1, b1 := LogPartition(0, log0), LogPartition(1, log1);
    WriteIntoChain([], a, [b], units, 0, LogStart());
    assert [] + [a] + [b] == [a, b] && [] + [a1] + [b] == [a1, b];
    SameEncodedLength(a, a1);
    WriteIntoChain([a1], b, [], units, 0, LogStart());
    assert [a1] + [b] + [] == [a1, b] && [a1] + [b1] + [] == [a1, b1];
  }

  /** The lookup and the wipe of the free partition. */
  lemma WipeIs(m: seq<byte>)
    ensures var h := Lookup(m, FREE_QUERY, 0); Erased(m, h.addr - HEADER, HEADER + h.len) == WithoutFree(m)
  {
  }

  lemma MovesOneMore(m: seq<byte>, end: nat, gap: nat, i: nat)
    requires 0 < gap <= end <= i < |m|
    ensures At(Patch(m, end - gap, m[end..i]), i) == m[i]
    ensures WriteByteAt(Patch(m, end - gap, m[end..i]), i - gap, m[i]) == Patch(m, end - gap, m[end..i + 1])
  {
  }

  lemma NothingMoved(m: seq<byte>, end: nat, gap: nat)
    requires gap <= end <= |m|
    ensures Patch(m, end - gap, m[end..end]) == m && m[end..|m|] == m[end..]
  {
  }

  lemma MoveThenErase(m: seq<byte>, end: nat, gap: nat)
    requires 32 <= gap <= end <= |m|
    ensures Erased(Patch(m, end - gap, m[end..]), |m| - gap, gap - 32) == MovedDown(m, end, gap)
  {
    hide Patch, Erased;
    var moved := Patch(m, end - gap, m[end..]);
    var erased := Erased(moved, |m| - gap, gap - 32);
    assert forall j :: 0 <= j < |m| ==> erased[j] == MovedDown(m, end, gap)[j];
  }

  lemma ZeroChain(m: seq<byte>, units: nat)
    requires |m| == 16 * units && forall i :: 0 <= i < |m| ==> m[i] == 0
    ensures m == Chain([], units) && |EncodeAll([])| == 0
  {
  }

  lemma SameEncodedLength(a: Partition, b: Partition)
    requires WellFormed(a) && WellFormed(b) && |a.data| == |b.data|
    ensures |EncodeAll([a])| == |EncodeAll([b])|
  {
    OneChain(a);
    OneChain(b);
  }

  lemma {:induction false} SumBound(s: seq<byte>, i: nat)
    requires i <= |s|
    ensures Sum(s, i) <= 0xff * (|s| - i)
    decreases |s| - i
  {
    if i < |s| { SumBound(s, i + 1); }
  }
}
