/** lib/libnvram/envvar.c in its own form: environment variables in an NVRAM partition, rewritten in place. */
module EnvVar {
  import opened Bytes
  import opened EnvLayout
  import Nvram
  import NvramLayout
  import NvramRuns
  import NvramTable

  class Store {
    const nv: Nvram.Memory

    constructor (nv: Nvram.Memory)
      ensures this.nv == nv
    {
      this.nv := nv;
    }

    /** The inner loop of the readers: one string, and the offset behind its terminator. */
    method ReadString(start: nat, ghost text: seq<byte>) returns (temp: seq<byte>, offset: nat)
      requires |text| < LIMIT && start + |text| < nv.mem.Length
      requires forall i :: 0 <= i < |text| ==> text[i] != 0 && nv.mem[start + i] == text[i]
      requires nv.mem[start + |text|] == 0
      ensures temp == text && offset == start + |text| + 1
    {
      temp := [];
      offset := start;
      var data := nv.ReadByte(offset);
      offset := offset + 1;
      while data != 0 && |temp| < LIMIT
        invariant |temp| <= |text| && temp == text[..|temp|] && offset == start + |temp| + 1
        invariant data == if |temp| < |text| then text[|temp|] else 0
        decreases |text| - |temp|
      {
        temp := temp + [data];
        data := nv.ReadByte(offset);
        offset := offset + 1;
      }
      assert text[..|text|] == text;
    }

    /** The string that starts at entry `k`. */
    method ReadEntry(start: nat, ghost addr: nat, ghost len: nat, ghost es: seq<Entry>, ghost k: nat)
      returns (temp: seq<byte>, offset: nat)
      requires Holds(nv.mem[..], addr, len, es) && k <= |es| && start == addr + |Encode(es[..k])|
      ensures k == |es| ==> temp == [] && offset == start + 1
      ensures k < |es| ==> temp == Text(es[k]) && offset == addr + |Encode(es[..k + 1])|
    {
      hide Encode, Text, Holds;
      StringAt(nv.mem[..], addr, len, es, k);
      Bounds(nv.mem[..], addr, len, es);
      if k < |es| {
        TextIsPlain(es[k]);
      }
      ghost var text := if k < |es| then Text(es[k]) else [];
      temp, offset := ReadString(start, text);
    }

    /** nvram_get_env. */
    method GetEnv(addr: nat, ghost len: nat, name: seq<byte>, ghost es: seq<Entry>) returns (value: Option<seq<byte>>)
      requires addr != 0 ==> Holds(nv.mem[..], addr, len, es)
      requires name != [] && Plain(name)
      ensures addr == 0 ==> value == None
      ensures addr != 0 ==> value == GetIn(es, name)
    {
      hide Encode, Text, Holds, Find;
      if addr == 0 {
        return None;
      }
      var offset := addr;
      ghost var k := 0;
      NoEntries();
      assert es[..0] == [];
      while true
        invariant 0 <= k <= |es| && offset == addr + |Encode(es[..k])|
        invariant forall i :: 0 <= i < k ==> !Prefix(name, es[i].name)
        decreases |es| - k
      {
        Bounds(nv.mem[..], addr, len, es);
        var temp;
        temp, offset := ReadEntry(offset, addr, len, es, k);
        if k == |es| {
          FindNone(es, name);
          assert !Prefix(name, temp);
        } else {
          assert temp[..|temp|] == temp;
          MatchesText(name, es[k], temp);
          TextIsPlain(es[k]);
        }
        if Prefix(name, temp) {
          FindIs(es, name, k);
          EqualsIs(es[k]);
          var pos := 0;
          while pos < |temp| && temp[pos] != EQUALS
            invariant 0 <= pos <= |es[k].name|
            decreases |es[k].name| - pos
          {
            pos := pos + 1;
          }
          return Some(temp[pos + 1..]);
        }
        if |temp| == 0 {
          break;
        }
        k := k + 1;
      }
      value := None;
    }

    /** get_past_env_pos of a variable that is there. The buffer keeps what earlier strings left in it. */
    method PastEnvPos(addr: nat, ghost len: nat, name: seq<byte>, ghost es: seq<Entry>) returns (offset: nat)
      requires Holds(nv.mem[..], addr, len, es) && name != [] && Plain(name) && Find(es, name).Some?
      ensures offset == addr + |Encode(es[..Find(es, name).value + 1])|
    {
      hide Encode, Text, Holds, Find, Prefix;
      offset := addr;
      var temp: seq<byte> := Fill(0, LIMIT);
      ghost var k := 0;
      NoEntries();
      assert es[..0] == [];
      while true
        invariant 0 <= k <= Find(es, name).value && offset == addr + |Encode(es[..k])| && |temp| == LIMIT
        decreases |es| - k
      {
        Bounds(nv.mem[..], addr, len, es);
        var text;
        text, offset := ReadEntry(offset, addr, len, es, k);
        TextIsPlain(es[k]);
        temp := text + temp[|text|..];
        assert temp[..|text|] == text;
        MatchesText(name, es[k], temp);
        if Prefix(name, temp) {
          FindIsUnique(es, name, k);
          return;
        }
        k := k + 1;
      }
    }

    /** find_last_envvar. */
    method FindLast(addr: nat, len: nat, ghost es: seq<Entry>) returns (offset: nat)
      requires Holds(nv.mem[..], addr, len, es)
      ensures offset == addr + |Encode(es)|
    {
      hide Encode, Holds;
      Bounds(nv.mem[..], addr, len, es);
      var last := nv.ReadByte(addr);
      offset := addr;
      while offset < addr + len
        invariant addr <= offset <= addr + |Encode(es)|
        invariant last == if offset == addr then nv.mem[addr] else nv.mem[offset - 1]
      {
        var current := nv.ReadByte(offset);
        NoEmptyStringAt(nv.mem[..], addr, len, es, offset);
        if last == 0 && current == 0 {
          return;
        }
        last := current;
        offset := offset + 1;
      }
    }

    /** The writing loops: `s` at `start`, one byte at a time, as far as the NVRAM reaches. */
    method WriteAll(start: nat, s: seq<byte>) returns (offset: nat)
      modifies nv.mem
      ensures nv.mem[..] == Written(old(nv.mem[..]), start, s) && offset == start + |s|
    {
      hide NvramLayout.WriteByteAt;
      ghost var m := nv.mem[..];
      var i := 0;
      NothingWritten(m, start, s);
      while i < |s|
        invariant 0 <= i <= |s| && nv.mem[..] == Written(m, start, s[..i])
      {
        nv.WriteByte(start + i, s[i]);
        OneMoreWritten(m, start, s, i);
        i := i + 1;
      }
      assert s[..|s|] == s;
      offset := start + |s|;
    }

    /** nvram_add_env, for a store with room behind its last string. It succeeds exactly if the string with its
        terminator and one more byte fit; the store is a terminated list again exactly if they fit with a byte
        to spare. */
    method AddEnv(addr: nat, len: nat, name: seq<byte>, value: seq<byte>, ghost es: seq<Entry>) returns (result: int)
      requires Holds(nv.mem[..], addr, len, es) && Proper(Entry(name, value))
      modifies nv.mem
      ensures var size, space := |name| + 1 + |value| + 1, len - |Encode(es)|;
              && (result == 0 <==> size <= space)
              && (size > space ==> result == -1 && nv.mem[..] == old(nv.mem[..]))
              && (size < space ==> Holds(nv.mem[..], addr, len, es + [Entry(name, value)]))
              && (size == space ==> nv.mem[addr..addr + len] == Encode(es + [Entry(name, value)]))
              && nv.mem[..addr] == old(nv.mem[..addr]) && nv.mem[addr + len..] == old(nv.mem[addr + len..])
    {
      hide Encode, Holds, Patch;
      Bounds(nv.mem[..], addr, len, es);
      var last := FindLast(addr, len, es);
      var freespace := addr + len - last;
      var size := |name| + |value| + 2;
      if freespace < size {
        return -1;
      }
      ghost var e, m := Entry(name, value), nv.mem[..];
      AppendsEntry(m, addr, len, es, e);
      var offset := WriteAll(last, name);
      offset := WriteAll(offset, [EQUALS]);
      offset := WriteAll(offset, value);
      WrittenAppends(m, last, name, [EQUALS]);
      WrittenAppends(m, last, name + [EQUALS], value);
      WrittenIsPatch(m, last, Text(e));
      OutsideKept(m, addr, len, last, Text(e));
      OutsideIs(nv.mem, addr, len);
      result := 0;
    }

    /** nvram_set_env; `memory` says whether the copy buffer can be allocated. A new variable without room is
        refused. The space for a longer value of an existing variable is not checked: without room the strings
        are written over what lies behind the partition. */
    method SetEnv(addr: nat, len: nat, name: seq<byte>, value: seq<byte>, memory: bool, ghost es: seq<Entry>)
      returns (result: int)
      requires addr != 0 ==> Holds(nv.mem[..], addr, len, es) && AllProper(SetIn(es, name, value))
      requires name != [] && Plain(name)
      modifies nv.mem
      ensures addr == 0 ==> result == -1 && nv.mem[..] == old(nv.mem[..])
      ensures addr != 0 ==>
                var was, es1 := GetIn(es, name), SetIn(es, name, value);
                && (result == 0 <==> if was.None? then |Encode(es1)| <= len else was == Some(value) || memory)
                && (result != 0 || was == Some(value) ==> nv.mem[..] == old(nv.mem[..]))
                && (result == 0 && |Encode(es1)| < len ==>
                      Holds(nv.mem[..], addr, len, es1)
                      && nv.mem[..addr] == old(nv.mem[..addr]) && nv.mem[addr + len..] == old(nv.mem[addr + len..]))
                && (result == 0 && |Encode(es1)| >= len ==> nv.mem[..] == Written(old(nv.mem[..]), addr, Encode(es1)))
    {
      hide Encode, Holds, Find, Patch, Prefix, NvramLayout.Erased;
      if addr == 0 {
        return -1;
      }
      ghost var m := nv.mem[..];
      var oldValue := GetEnv(addr, len, name, es);
      if oldValue == None {
        EncodeSet(es, name, value);
        AddedIsProper(es, name, value);
        result := AddEnv(addr, len, name, value, es);
        if |Encode(es)| + |name| + 1 + |value| + 1 == len {
          Bounds(m, addr, len, es);
          FilledIsWritten(m, nv.mem[..], addr, len, Encode(SetIn(es, name, value)));
        }
        return;
      }
      ghost var k := Find(es, name).value;
      if |oldValue.value| == |value| && oldValue.value == value {
        Bounds(m, addr, len, es);
        return 0;
      }
      var last := FindLast(addr, len, es);
      var current := PastEnvPos(addr, len, name, es);
      if !memory {
        return -1;
      }
      assert SetIn(es, name, value)[k] == Overwritten(es[k], value);
      Rewrite(addr, len, value, last, current, es, k);
      result := 0;
    }

    /** nvram_set_env in a partition of a table, found as the callers find it: with room it is a write of the new
        list into that partition, so that a run of partition operations can go on behind it. */
    method SetVariable(ghost t: NvramLayout.Table, q: NvramLayout.Query, name: seq<byte>, value: seq<byte>,
                       memory: bool, ghost es: seq<Entry>)
      returns (result: int)
      requires nv.Sized() && NvramLayout.Valid(t) && nv.mem[..] == NvramLayout.Image(t)
      requires InStore(t, q, es) && AllProper(SetIn(es, name, value)) && name != [] && Plain(name)
      modifies nv.mem
      ensures var es1 := SetIn(es, name, value);
              var k := NvramLayout.FirstMatch(NvramTable.AllOf(t), q).value;
              && (result != 0 ==> nv.mem[..] == NvramLayout.Image(t))
              && (result == 0 && |Encode(es1)| < |t.used[k].data| ==>
                    var write := NvramRuns.Write(q, 0, Stored(es1, |t.used[k].data|));
                    && NvramRuns.Allowed(t, write) && NvramLayout.Valid(NvramRuns.Apply(t, write))
                    && nv.mem[..] == NvramLayout.Image(NvramRuns.Apply(t, write))
                    && InStore(NvramRuns.Apply(t, write), q, es1))
    {
      hide Encode, Holds, Find, NvramLayout.Image, NvramLayout.FirstMatch, NvramTable.AllOf, Stored;
      ghost var k, m := NvramLayout.FirstMatch(NvramTable.AllOf(t), q).value, nv.mem[..];
      var part := nv.Find(t, q);
      ghost var len := |t.used[k].data|;
      StoreInMemory(t, q, es);
      Bounds(m, part.addr, part.len, es);
      OutsideIs(nv.mem, part.addr, part.len);
      result := SetEnv(part.addr, part.len, name, value, memory, es);
      ghost var es1 := SetIn(es, name, value);
      if result == 0 && |Encode(es1)| < len {
        OutsideIs(nv.mem, part.addr, part.len);
        SetIsWrite(t, q, es1, m, nv.mem[..]);
      }
    }

    /** The rewriting part of nvram_set_env: the later strings are copied out, and written back behind the new
        value. */
    method Rewrite(ghost addr: nat, ghost len: nat, value: seq<byte>, last: nat, past: nat, ghost es: seq<Entry>,
                   ghost k: nat)
      requires Holds(nv.mem[..], addr, len, es) && k < |es| && Proper(Overwritten(es[k], value))
      requires last == addr + |Encode(es)| && past == addr + |Encode(es[..k + 1])|
      modifies nv.mem
      ensures var es1 := es[k := Overwritten(es[k], value)];
              if |Encode(es1)| < len then
                && Holds(nv.mem[..], addr, len, es1)
                && nv.mem[..addr] == old(nv.mem[..addr]) && nv.mem[addr + len..] == old(nv.mem[addr + len..])
              else nv.mem[..] == Written(old(nv.mem[..]), addr, Encode(es1))
    {
      hide Encode, Holds, Patch, NvramLayout.Erased, Proper, Head, Overwritten;
      ghost var m, es1 := nv.mem[..], es[k := Overwritten(es[k], value)];
      Bounds(m, addr, len, es);
      RestAt(m, addr, len, es, k);
      var buffer := ReadAll(past, last - past);
      var current := WalkBack(past, addr, len, es, k);
      current := current + 1;
      ghost var start, rest := current, Encode(es[k + 1..]);
      current := WriteValue(current, value, buffer);
      ghost var m1 := nv.mem[..];
      if |Encode(es1)| < len {
        ReplacesValue(m, addr, len, es, k, value);
        WrittenIsPatch(m, start, value + NUL + rest);
        RewriteKept(m, addr, len, start, value + NUL + rest, last - current);
      } else {
        GrowsBeyond(m, addr, len, es, k, value);
      }
      if current < last {
        nv.Erase(current, last - current);
      } else {
        NothingErased(m1, current, last - current);
      }
      OutsideIs(nv.mem, addr, len);
    }

    /** The new value, its terminator, and the strings that follow. */
    method WriteValue(start: nat, value: seq<byte>, buffer: seq<byte>) returns (current: nat)
      modifies nv.mem
      ensures nv.mem[..] == Written(old(nv.mem[..]), start, value + NUL + buffer)
      ensures current == start + |value| + 1 + |buffer|
    {
      ghost var m := nv.mem[..];
      current := WriteAll(start, value);
      current := WriteAll(current, NUL);
      current := WriteAll(current, buffer);
      WrittenAppends(m, start, value, NUL);
      WrittenAppends(m, start, value + NUL, buffer);
    }

    method ReadAll(start: nat, n: nat) returns (buffer: seq<byte>)
      requires start + n <= nv.mem.Length
      ensures buffer == nv.mem[start..start + n]
    {
      buffer := [];
      var i := 0;
      while i < n
        invariant 0 <= i <= n && buffer == nv.mem[start..start + i]
      {
        var b := nv.ReadByte(start + i);
        buffer := buffer + [b];
        i := i + 1;
      }
    }

    /** Back from behind a string to its last equals sign. */
    method WalkBack(past: nat, ghost addr: nat, ghost len: nat, ghost es: seq<Entry>, ghost k: nat)
      returns (current: nat)
      requires Holds(nv.mem[..], addr, len, es) && k < |es| && past == addr + |Encode(es[..k + 1])|
      ensures current + 1 == addr + |Encode(es[..k])| + |Head(es[k])|
    {
      hide Encode, Holds;
      ghost var equals := addr + |Encode(es[..k])| + |Head(es[k])| - 1;
      Bounds(nv.mem[..], addr, len, es);
      BehindEquals(nv.mem[..], addr, len, es, k);
      current := past;
      var b := nv.ReadByte(current);
      while b != EQUALS
        invariant equals <= current <= past && b == nv.mem[..][current]
        decreases current
      {
        current := current - 1;
        b := nv.ReadByte(current);
      }
    }
  }

  /** The contents of a partition that holds the entries. */
  function Stored(es: seq<Entry>, len: nat): (s: seq<byte>)
    requires |Encode(es)| < len
    ensures |s| == len
  {
    Encode(es) + Fill(0, len - |Encode(es)|)
  }

  /** The partition in use that the query finds holds the entries. */
  predicate InStore(t: NvramLayout.Table, q: NvramLayout.Query, es: seq<Entry>)
    requires NvramLayout.Valid(t)
  {
    var found := NvramLayout.FirstMatch(NvramTable.AllOf(t), q);
    && found.Some? && found.value < |t.used| && AllProper(es)
    && |Encode(es)| < |t.used[found.value].data| && t.used[found.value].data == Stored(es, |t.used[found.value].data|)
  }

  lemma StoreInMemory(t: NvramLayout.Table, q: NvramLayout.Query, es: seq<Entry>)
    requires NvramLayout.Valid(t) && InStore(t, q, es)
    ensures var k := NvramLayout.FirstMatch(NvramTable.AllOf(t), q).value;
            var h := NvramLayout.HandleOf(NvramTable.AllOf(t), k, 0);
            h.addr > 0 && h.len == |t.used[k].data| && Holds(NvramLayout.Image(t), h.addr, h.len, es)
  {
    hide Encode, NvramLayout.Image, NvramLayout.FirstMatch, NvramTable.AllOf, NvramLayout.EncodeAll;
    var k := NvramLayout.FirstMatch(NvramTable.AllOf(t), q).value;
    var h, d, m := NvramLayout.HandleOf(NvramTable.AllOf(t), k, 0), t.used[k].data, NvramLayout.Image(t);
    assert NvramTable.AllOf(t)[k] == t.used[k];
    NvramTable.WriteIntoImage(t, k, 0, d);
    assert Patch(d, 0, d) == d;
    assert NvramTable.WriteTo(t, k, 0, d) == t;
    assert m[h.addr..h.addr + |d|] == Patch(m, h.addr, d)[h.addr..h.addr + |d|] == d;
  }

  /** Memory that holds the new entries and is unchanged elsewhere is the image after a write of them. */
  lemma SetIsWrite(t: NvramLayout.Table, q: NvramLayout.Query, es: seq<Entry>, m: seq<byte>, m1: seq<byte>)
    requires NvramLayout.Valid(t) && m == NvramLayout.Image(t) && |m| == |m1|
    requires var found := NvramLayout.FirstMatch(NvramTable.AllOf(t), q);
             found.Some? && found.value < |t.used| && |Encode(es)| < |t.used[found.value].data|
    requires var k := NvramLayout.FirstMatch(NvramTable.AllOf(t), q).value;
             var h := NvramLayout.HandleOf(NvramTable.AllOf(t), k, 0);
             && h.addr >= 0 && h.len == |t.used[k].data| && Holds(m1, h.addr, h.len, es)
             && h.addr + h.len <= |m| && m1[..h.addr] == m[..h.addr] && m1[h.addr + h.len..] == m[h.addr + h.len..]
    ensures var k := NvramLayout.FirstMatch(NvramTable.AllOf(t), q).value;
            var write := NvramRuns.Write(q, 0, Stored(es, |t.used[k].data|));
            && NvramRuns.Allowed(t, write) && NvramLayout.Valid(NvramRuns.Apply(t, write))
            && m1 == NvramLayout.Image(NvramRuns.Apply(t, write)) && InStore(NvramRuns.Apply(t, write), q, es)
  {
    hide Encode, NvramLayout.Image, NvramLayout.EncodeAll, NvramLayout.Matches, NvramLayout.FirstMatch, Patch;
    var all := NvramTable.AllOf(t);
    var k := NvramLayout.FirstMatch(all, q).value;
    var h, d := NvramLayout.HandleOf(all, k, 0), Stored(es, |t.used[k].data|);
    var t1 := NvramTable.WriteTo(t, k, 0, d);
    NvramTable.WriteIntoImage(t, k, 0, d);
    InsideIsPatch(m, m1, h.addr, d);
    assert t1.used[k].data == d;
    SameFirst(all, NvramTable.AllOf(t1), q, k);
  }

  /** A lookup does not depend on contents. */
  lemma {:induction false} SameFirst(ps: seq<NvramLayout.Partition>, qs: seq<NvramLayout.Partition>,
                                     q: NvramLayout.Query, k: nat)
    requires NvramLayout.AllWellFormed(ps) && NvramLayout.AllWellFormed(qs) && |ps| == |qs|
    requires forall i :: 0 <= i < |ps| ==> ps[i].kind == qs[i].kind && ps[i].name == qs[i].name
    requires NvramLayout.FirstMatch(ps, q) == Some(k)
    ensures NvramLayout.FirstMatch(qs, q) == Some(k)
  {
    hide NvramLayout.Matches, NvramLayout.FirstMatch;
    assert NvramLayout.Matches(q, ps[k].kind, ps[k].name) && qs[k].kind == ps[k].kind && qs[k].name == ps[k].name;
    var r := NvramLayout.FirstMatch(qs, q);
    assert r.Some? ==> ps[r.value].kind == qs[r.value].kind && ps[r.value].name == qs[r.value].name;
    assert r.Some? && r.value <= k;
  }

  lemma InsideIsPatch(m: seq<byte>, m1: seq<byte>, at: nat, s: seq<byte>)
    requires |m| == |m1| && at + |s| <= |m| && m1[at..at + |s|] == s
    requires m1[..at] == m[..at] && m1[at + |s|..] == m[at + |s|..]
    ensures m1 == Patch(m, at, s)
  {
    assert m1 == m1[..at] + m1[at..at + |s|] + m1[at + |s|..];
  }

  lemma NoEntries()
    ensures |Encode([])| == 0
  {
  }

  /** The equals sign of an entry. */
  lemma EqualsIs(e: Entry)
    requires Proper(e)
    ensures var t, n := Text(e), |e.name|;
            n < |t| && t[n] == EQUALS && t[n + 1..] == e.value && forall i :: 0 <= i < n ==> t[i] != EQUALS
  {
  }

  lemma FindIsUnique(es: seq<Entry>, name: seq<byte>, k: nat)
    requires k < |es| && Prefix(name, es[k].name) && Find(es, name).Some? && k <= Find(es, name).value
    ensures Find(es, name) == Some(k)
  {
  }

  /** `mem` after `s` was written at `at`, as far as it reaches. */
  function Written(mem: seq<byte>, at: nat, s: seq<byte>): (r: seq<byte>)
    ensures |r| == |mem| && forall i :: 0 <= i < |mem| ==> r[i] == if at <= i < at + |s| then s[i - at] else mem[i]
  {
    seq<byte>(|mem|, i requires 0 <= i < |mem| => if at <= i < at + |s| then s[i - at] else mem[i])
  }

  lemma NothingWritten(m: seq<byte>, start: nat, s: seq<byte>)
    ensures Written(m, start, s[..0]) == m
  {
  }

  lemma OneMoreWritten(m: seq<byte>, start: nat, s: seq<byte>, i: nat)
    requires i < |s|
    ensures NvramLayout.WriteByteAt(Written(m, start, s[..i]), start + i, s[i]) == Written(m, start, s[..i + 1])
  {
  }

  lemma WrittenAppends(m: seq<byte>, at: nat, a: seq<byte>, b: seq<byte>)
    ensures Written(Written(m, at, a), at + |a|, b) == Written(m, at, a + b)
  {
  }

  lemma WrittenIsPatch(m: seq<byte>, at: nat, s: seq<byte>)
    requires at + |s| <= |m|
    ensures Written(m, at, s) == Patch(m, at, s)
  {
  }

  /** A partition that was filled exactly. */
  lemma FilledIsWritten(m: seq<byte>, m1: seq<byte>, addr: nat, len: nat, s: seq<byte>)
    requires |m| == |m1| && addr + len <= |m| && |s| == len && m1[addr..addr + len] == s
    requires m1[..addr] == m[..addr] && m1[addr + len..] == m[addr + len..]
    ensures m1 == Written(m, addr, s)
  {
    assert m1 == m1[..addr] + m1[addr..addr + len] + m1[addr + len..];
    assert m == m[..addr] + m[addr..addr + len] + m[addr + len..];
  }

  /** A value that does not fit: its terminator and the later strings are written beyond the partition. */
  lemma GrowsBeyond(mem: seq<byte>, addr: nat, len: nat, es: seq<Entry>, k: nat, value: seq<byte>)
    requires Holds(mem, addr, len, es) && k < |es| && Proper(Overwritten(es[k], value))
    requires |Encode(es[k := Overwritten(es[k], value)])| >= len
    ensures var es1, rest := es[k := Overwritten(es[k], value)], Encode(es[k + 1..]);
            var start := addr + |Encode(es[..k])| + |Head(es[k])|;
            && start + |value| + 1 + |rest| == addr + |Encode(es1)| > addr + |Encode(es)|
            && Written(mem, start, value + NUL + rest) == Written(mem, addr, Encode(es1))
  {
    hide Encode, Holds, Proper, Head, Overwritten, Text;
    var e1 := Overwritten(es[k], value);
    var es1, rest, a, n := es[k := e1], Encode(es[k + 1..]), Encode(es[..k]), Head(es[k]);
    EncodeAround(es, k);
    EncodeAround(es1, k);
    assert es1[..k] == es[..k] && es1[k + 1..] == es[k + 1..];
    Regroup(a, es[k], value, rest);
    Bounds(mem, addr, len, es);
    BytesOf(mem, addr, len, es);
    SameStart(mem, addr, a + n, es[k].value[|Kept(es[k].value)|..] + NUL + rest, value + NUL + rest);
  }

  lemma SameStart(mem: seq<byte>, addr: nat, a: seq<byte>, old1: seq<byte>, new1: seq<byte>)
    requires addr + |a| <= |mem|
    requires forall i :: addr <= i < addr + |a + old1| && i < |mem| ==> mem[i] == (a + old1)[i - addr]
    ensures Written(mem, addr + |a|, new1) == Written(mem, addr, a + new1)
  {
  }

  lemma OutsideKept(m: seq<byte>, addr: nat, len: nat, at: nat, s: seq<byte>)
    requires addr <= at && at + |s| <= addr + len <= |m|
    ensures Patch(m, at, s)[..addr] == m[..addr] && Patch(m, at, s)[addr + len..] == m[addr + len..]
  {
  }

  lemma OutsideIs(a: array<byte>, addr: nat, len: nat)
    requires addr + len <= a.Length
    ensures a[..addr] == a[..][..addr] && a[addr + len..] == a[..][addr + len..]
    ensures a[addr..addr + len] == a[..][addr..addr + len]
  {
  }

  lemma NothingErased(m: seq<byte>, off: int, len: int)
    requires len <= 0
    ensures NvramLayout.Erased(m, off, len) == m
  {
  }

  lemma RewriteKept(m: seq<byte>, addr: nat, len: nat, at: nat, s: seq<byte>, gap: int)
    requires addr <= at && at + |s| <= addr + len <= |m| && at + |s| + gap <= addr + len
    ensures var m1 := NvramLayout.Erased(Patch(m, at, s), at + |s|, gap);
            m1[..addr] == m[..addr] && m1[addr + len..] == m[addr + len..]
  {
  }

  /** The length of the store after a new variable was added. */
  lemma EncodeSet(es: seq<Entry>, name: seq<byte>, value: seq<byte>)
    requires Find(es, name).None?
    ensures |Encode(SetIn(es, name, value))| == |Encode(es)| + |name| + 1 + |value| + 1
  {
    hide Encode, Find;
    EncodeAppends(es, [Entry(name, value)]);
    EncodeOne(Entry(name, value));
  }

  lemma AddedIsProper(es: seq<Entry>, name: seq<byte>, value: seq<byte>)
    requires Find(es, name).None? && AllProper(SetIn(es, name, value))
    ensures Proper(Entry(name, value))
  {
    hide Find, Proper;
    assert SetIn(es, name, value)[|es|] == Entry(name, value);
  }

  /** The bytes behind entry `k`. */
  lemma RestAt(mem: seq<byte>, addr: nat, len: nat, es: seq<Entry>, k: nat)
    requires Holds(mem, addr, len, es) && k < |es|
    ensures addr + |Encode(es[..k + 1])| <= addr + |Encode(es)| <= |mem|
    ensures mem[addr + |Encode(es[..k + 1])|..addr + |Encode(es)|] == Encode(es[k + 1..])
  {
    hide Encode, Holds;
    EncodeAround(es, k);
    Bounds(mem, addr, len, es);
    BytesOf(mem, addr, len, es);
    var a, b := Encode(es[..k + 1]), Encode(es[k + 1..]);
    var w := mem[addr + |a|..addr + |Encode(es)|];
    assert forall i :: 0 <= i < |b| ==> w[i] == Encode(es)[|a| + i] == b[i];
  }

  /** The last equals sign in the text of an entry. */
  lemma LastEquals(e: Entry)
    ensures var t, n := Text(e), |Head(e)|;
            1 <= n <= |t| && t[n - 1] == EQUALS && forall i :: n <= i < |t| ==> t[i] != EQUALS
  {
    hide Kept;
    var v, c := e.value, |Kept(e.value)|;
    assert forall i :: c <= i < |v| ==> v[i] in v[c..];
  }

  /** Between the last equals sign of entry `k` and the start of the next one there is no other equals sign. */
  lemma BehindEquals(mem: seq<byte>, addr: nat, len: nat, es: seq<Entry>, k: nat)
    requires Holds(mem, addr, len, es) && k < |es|
    ensures var equals, past := addr + |Encode(es[..k])| + |Head(es[k])| - 1, addr + |Encode(es[..k + 1])|;
            && addr <= equals < past < |mem| && mem[equals] == EQUALS
            && forall i :: equals < i <= past ==> mem[i] != EQUALS
  {
    hide Encode, Holds, Head, Text;
    Bounds(mem, addr, len, es);
    StringAt(mem, addr, len, es, k);
    StringAt(mem, addr, len, es, k + 1);
    LastEquals(es[k]);
    var at, t, n := addr + |Encode(es[..k])|, Text(es[k]), |Head(es[k])| - 1;
    assert mem[at + n] == t[n];
    forall i | at + n < i <= at + |t| + 1 ensures mem[i] != EQUALS {
      if i < at + |t| {
        assert mem[at + (i - at)] == t[i - at];
      } else if i == at + |t| + 1 && k + 1 < |es| {
        StartsWithName(es[k + 1]);
        assert mem[i + 0] == Text(es[k + 1])[0];
      }
    }
  }

  lemma StartsWithName(e: Entry)
    requires Proper(e)
    ensures Text(e) != [] && Text(e)[0] == e.name[0] != EQUALS
  {
  }
}
