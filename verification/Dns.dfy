/** lib/libnet/dns.c in its own form: the two buffers filled by loops with moving pointers. */
module Dns {
  import opened Bytes
  import opened DnsNames

  const NAME_SIZE := 0x100

  /** hosttodomain. A host name of at most 255 bytes whose labels have at most 63 becomes the series of its
      labels; otherwise the result is the empty string. */
  method HostToDomain(host: seq<byte>, domain: array<byte>) returns (ok: bool)
    requires 0 !in host && domain.Length >= 1 && (|host| <= 255 ==> |host| + 2 <= domain.Length)
    modifies domain
    ensures ok == (|host| <= 255 && Short(Split(host)))
    ensures ok ==> domain[..|host| + 2] == Whole(Split(host))
    ensures !ok ==> domain[0] == 0
  {
    hide Split, Short, Wire, Whole, Patch;
    domain[0] := 0;
    if |host| > 255 {
      return false;
    }
    var start, iter := 0, 0;
    ghost var done: seq<seq<byte>> := [];
    NothingDone(host, domain[..]);
    while true
      invariant 0 <= start <= iter <= |host| && forall i :: start <= i < iter ==> host[i] != DOT
      invariant Split(host) == done + Split(host[start..]) && Short(done)
      invariant |Wire(done)| == start && domain[..][..start] == Wire(done)
      decreases |host| - start, |host| - iter
    {
      if iter < |host| && host[iter] != DOT {
        iter := iter + 1;
        continue;
      }
      ghost var rest := host[start..];
      var part := host[start..iter];
      SplitOne(rest, iter - start);
      assert rest[..iter - start] == part;
      domain[start] := (iter - start) % 0x100;
      if iter - start > MAX_LABEL {
        NotShort(host, done, part, iter, start);
        domain[0] := 0;
        return false;
      }
      PutContents(domain, start, part, done);
      if iter == |host| {
        domain[iter + 1] := 0;
        AllDone(host, done, part, domain[..]);
        return true;
      }
      assert rest[iter - start + 1..] == host[iter + 1..];
      MoveOver(done, part, Split(host[iter + 1..]));
      done := done + [part];
      start := iter + 1;
      iter := iter + 1;
    }
  }

  /** The bytes of a label behind its length. */
  method PutContents(domain: array<byte>, start: nat, part: seq<byte>, ghost done: seq<seq<byte>>)
    requires Short(done) && |part| <= MAX_LABEL && |Wire(done)| == start && start + 1 + |part| <= domain.Length
    requires domain[..][..start] == Wire(done) && domain[start] == |part|
    modifies domain
    ensures Short(done + [part]) && |Wire(done + [part])| == start + 1 + |part|
    ensures domain[..][..start + 1 + |part|] == Wire(done + [part])
  {
    hide Wire, Short, Patch;
    ghost var m := domain[..];
    Store(domain, start + 1, part);
    LabelDone(m, domain[..], start, done, part);
  }

  lemma MoveOver<T>(a: seq<T>, x: T, b: seq<T>)
    ensures a + ([x] + b) == a + [x] + b
  {
  }

  lemma NothingDone(host: seq<byte>, m: seq<byte>)
    ensures host[0..] == host && [] + Split(host) == Split(host)
    ensures Short([]) && Wire([]) == [] && m[..0] == []
  {
  }

  /** A name without a dot is one label; up to the first dot it is the first one. */
  lemma {:induction false} SplitOne(s: seq<byte>, n: nat)
    requires n <= |s| && (forall i :: 0 <= i < n ==> s[i] != DOT) && (n < |s| ==> s[n] == DOT)
    ensures Split(s) == if n == |s| then [s[..n]] else [s[..n]] + Split(s[n + 1..])
    decreases n
  {
    if n == 0 {
      assert n < |s| ==> s[1..] == s[n + 1..];
    } else {
      SplitOne(s[1..], n - 1);
      assert [s[0]] + s[1..][..n - 1] == s[..n];
      if n < |s| {
        var tail := Split(s[n + 1..]);
        assert s[1..][n..] == s[n + 1..];
        assert ([s[1..][..n - 1]] + tail)[1..] == tail;
      }
    }
  }

  lemma NotShort(host: seq<byte>, done: seq<seq<byte>>, part: seq<byte>, iter: nat, start: nat)
    requires start <= iter <= |host| && |part| > MAX_LABEL && Split(host) == done + Split(host[start..])
    requires Split(host[start..])[0] == part
    ensures !Short(Split(host))
  {
    hide Split;
    assert Split(host)[|done|] == part;
  }

  /** One more label in the buffer. */
  lemma LabelDone(m: seq<byte>, m1: seq<byte>, start: nat, done: seq<seq<byte>>, part: seq<byte>)
    requires Short(done) && |part| <= MAX_LABEL && |Wire(done)| == start && start + 1 + |part| <= |m|
    requires m[..start] == Wire(done) && m[start] == |part|
    requires m1 == Patch(m, start + 1, part)
    ensures Short(done + [part]) && |Wire(done + [part])| == start + 1 + |part|
    ensures |m1| == |m| && m1[..start + 1 + |part|] == Wire(done + [part])
  {
    WireAppends(done, [part]);
    assert [part][1..] == [];
    assert Wire([part]) == [|part|] + part + [];
  }

  lemma AllDone(host: seq<byte>, done: seq<seq<byte>>, part: seq<byte>, m: seq<byte>)
    requires Split(host) == done + [part] && Short(done + [part])
    requires |Wire(done + [part])| == |host| + 1 && |host| + 2 <= |m|
    requires m[..|host| + 1] == Wire(done + [part]) && m[|host| + 1] == 0
    ensures Short(Split(host)) && m[..|host| + 2] == Whole(Split(host))
  {
    hide Split, Wire;
  }

  /** dns_extract_name of a name whose pointers go backwards. Names of at most 255 bytes are copied with a
      terminator; longer ones are refused. The position returned is the one behind the last pointer. */
  method ExtractName(msg: seq<byte>, head: nat, domain: array<byte>) returns (ok: bool, next: nat)
    requires domain.Length == NAME_SIZE && ReadName(msg, head, head).Some?
    modifies domain
    ensures var n := ReadName(msg, head, head).value;
            && ok == (|n.raw| <= 255)
            && (ok ==> domain[..|n.raw| + 1] == n.raw + [0] && next == n.last)
            && (!ok ==> domain[0] == 0)
  {
    hide ReadName, Patch;
    ghost var n := ReadName(msg, head, head).value;
    var tail: nat, ptr: nat := 0, head;
    var nextSection := None;
    ghost var floor: nat := head;
    assert domain[..][..0] + n.raw == n.raw;
    while true
      invariant ReadName(msg, ptr, floor).Some? && 0 <= tail <= 255
      invariant n.raw == domain[..][..tail] + ReadName(msg, ptr, floor).value.raw
      invariant var m := ReadName(msg, ptr, floor).value;
                n.last == if m.pointers == 0 && nextSection.Some? then nextSection.value else m.last
      decreases floor, |msg| - ptr
    {
      ReadStep(msg, ptr, floor);
      ghost var m := ReadName(msg, ptr, floor).value;
      if msg[ptr] / 0x40 == 3 {
        nextSection := Some(ptr + 2);
        ptr := (msg[ptr] as int * 0x100 + msg[ptr + 1] as int) % 0x4000;
        floor := ptr;
        continue;
      }
      if msg[ptr] == 0 {
        assert domain[..][..tail] + [] == domain[..][..tail];
        domain[tail] := 0;
        ptr := ptr + 1;
        break;
      }
      var size := msg[ptr] as int + 1;
      if tail + size > 255 {
        domain[0] := 0;
        return false, 0;
      }
      ghost var before := domain[..];
      Store(domain, tail, msg[ptr..ptr + size]);
      Copied(before, tail, msg[ptr..ptr + size], ReadName(msg, ptr + size, floor).value.raw);
      tail := tail + size;
      ptr := ptr + size;
    }
    next := if nextSection == None then ptr else nextSection.value;
    ok := true;
  }

  /** One turn of the loop, in terms of the name that is still to be read. */
  lemma ReadStep(msg: seq<byte>, at: nat, floor: nat)
    requires ReadName(msg, at, floor).Some?
    ensures at < |msg|
    ensures var n, b := ReadName(msg, at, floor).value, msg[at] as int;
            if b / 0x40 == 3 then
              && at + 1 < |msg| && Target(msg, at) == (b * 0x100 + msg[at + 1] as int) % 0x4000 < floor
              && ReadName(msg, Target(msg, at), Target(msg, at)).Some?
              && var m := ReadName(msg, Target(msg, at), Target(msg, at)).value;
                 && n.raw == m.raw && n.pointers == m.pointers + 1
                 && n.last == if m.pointers == 0 then at + 2 else m.last
            else if b == 0 then n == Name([], at + 1, at + 1, 0)
            else
              && at + 1 + b <= |msg| && ReadName(msg, at + 1 + b, floor).Some?
              && var m := ReadName(msg, at + 1 + b, floor).value;
                 n.raw == msg[at..at + 1 + b] + m.raw && n.pointers == m.pointers && n.last == m.last
  {
    if msg[at] >= 0xc0 && at + 1 < |msg| {
      PointerBits(msg[at], msg[at + 1]);
    }
  }

  lemma PointerBits(a: byte, b: byte)
    requires a >= 0xc0
    ensures (a as int * 0x100 + b as int) % 0x4000 == a as int % 0x40 * 0x100 + b as int
  {
  }

  lemma Copied(m: seq<byte>, tail: nat, s: seq<byte>, rest: seq<byte>)
    requires tail + |s| <= |m|
    ensures m[..tail] + (s + rest) == Patch(m, tail, s)[..tail + |s|] + rest
  {
  }

  /** What hosttodomain makes of a regular host name is read back by dns_extract_name: the same labels, the same
      host name, and the position behind it. */
  lemma ReadsBackHost(host: seq<byte>, msg: seq<byte>, at: nat)
    requires Regular(Split(host)) && Short(Split(host)) && |host| <= 254
    requires at + |host| + 2 <= |msg| && msg[at..at + |host| + 2] == Whole(Split(host))
    ensures var n := ReadName(msg, at, at);
            && n.Some? && n.value.raw == Wire(Split(host)) && |n.value.raw| <= 255
            && n.value.next == n.value.last == at + |host| + 2
            && Join(Split(host)) == host
  {
    hide Split, Wire, Whole, ReadName, Regular;
    WireLength(host);
    ReadsWholeName(msg, at, at, Split(host));
    JoinUndoesSplit(host);
  }
}
