/** Domain names of lib/libnet/dns.c: host names, series of labels, and compression (sections 3.1 and 4.1.4 of
    RFC 1035). */
module DnsNames {
  import opened Bytes

  const DOT: byte := 0x2e
  const MAX_LABEL := 63

  // ----- host names

  /** The labels between the dots; there is always one. */
  function Split(host: seq<byte>): (labels: seq<seq<byte>>)
    ensures |labels| >= 1
  {
    if host == [] then [[]]
    else
      var rest := Split(host[1..]);
      if host[0] == DOT then [[]] + rest else [[host[0]] + rest[0]] + rest[1..]
  }

  function Join(labels: seq<seq<byte>>): seq<byte>
    requires |labels| >= 1
  {
    if |labels| == 1 then labels[0] else labels[0] + [DOT] + Join(labels[1..])
  }

  predicate Short(labels: seq<seq<byte>>) { forall i :: 0 <= i < |labels| ==> |labels[i]| <= MAX_LABEL }

  /** Labels as RFC 1035 wants them: not empty and at most 63 bytes. */
  predicate Regular(labels: seq<seq<byte>>) { forall i :: 0 <= i < |labels| ==> 1 <= |labels[i]| <= MAX_LABEL }

  /** A series of labels, each behind its length, without the terminator. */
  function Wire(labels: seq<seq<byte>>): seq<byte>
    requires Short(labels)
  {
    if labels == [] then [] else [|labels[0]|] + labels[0] + Wire(labels[1..])
  }

  lemma ShortAppends(a: seq<seq<byte>>, b: seq<seq<byte>>)
    requires Short(a) && Short(b)
    ensures Short(a + b) && (a != [] ==> Short(a[1..]))
  {
  }

  lemma {:induction false} WireAppends(a: seq<seq<byte>>, b: seq<seq<byte>>)
    requires Short(a) && Short(b)
    ensures Short(a + b) && Wire(a + b) == Wire(a) + Wire(b)
  {
    ShortAppends(a, b);
    if a == [] {
      assert a + b == b;
    } else {
      assert (a + b)[1..] == a[1..] + b && (a + b)[0] == a[0];
      assert |a[0]| <= MAX_LABEL;
      hide Short;
      WireAppends(a[1..], b);
    }
  }

  /** Splitting loses nothing: the host name is its labels with dots between them. */
  lemma {:induction false} JoinUndoesSplit(host: seq<byte>)
    ensures Join(Split(host)) == host
  {
    if host != [] {
      JoinUndoesSplit(host[1..]);
      var rest := Split(host[1..]);
      if host[0] == DOT {
        assert ([[]] + rest)[1..] == rest;
      } else {
        var all := [[host[0]] + rest[0]] + rest[1..];
        assert all[1..] == rest[1..];
      }
      assert host == [host[0]] + host[1..];
    }
  }

  /** And every dot separates: no label holds one. */
  lemma {:induction false} LabelsHaveNoDots(host: seq<byte>)
    ensures forall i :: 0 <= i < |Split(host)| ==> DOT !in Split(host)[i]
  {
    if host != [] {
      LabelsHaveNoDots(host[1..]);
    }
  }

  /** A host name of n bytes takes n + 2 bytes as labels with a terminator. */
  lemma {:induction false} WireLength(host: seq<byte>)
    requires Short(Split(host))
    ensures |Wire(Split(host))| == |host| + 1
  {
    if host != [] {
      var rest := Split(host[1..]);
      if host[0] == DOT {
        var all: seq<seq<byte>> := [[]] + rest;
        assert all[1..] == rest && forall i :: 0 <= i < |rest| ==> rest[i] == all[i + 1];
        WireLength(host[1..]);
      } else {
        var all := [[host[0]] + rest[0]] + rest[1..];
        assert all[1..] == rest[1..] && forall i :: 1 <= i < |rest| ==> rest[i] == all[i];
        assert Short(rest);
        WireLength(host[1..]);
      }
    } else {
      assert Wire([[]]) == [0] + [] + Wire([[]][1..]);
    }
  }

  // ----- names in a message

  /** A name: its labels without compression, where the data behind it starts, and the position behind the last
      pointer that was followed (or the same, if there was none). */
  datatype Name = Name(raw: seq<byte>, next: nat, last: nat, pointers: nat)

  function Target(msg: seq<byte>, at: nat): nat
    requires at + 1 < |msg|
  {
    msg[at] as int % 0x40 * 0x100 + msg[at + 1] as int
  }

  /** The name at `at`, in a segment that starts at `floor`. Every pointer must go to before the segment it is in:
      then no message makes the reader loop. */
  function ReadName(msg: seq<byte>, at: nat, floor: nat): (r: Option<Name>)
    ensures r.Some? && r.value.pointers == 0 ==> r.value.last == r.value.next
    decreases floor, |msg| - at
  {
    if at >= |msg| then None
    else if msg[at] >= 0xc0 then
      if at + 1 >= |msg| || Target(msg, at) >= floor then None
      else
        match ReadName(msg, Target(msg, at), Target(msg, at))
        case None => None
        case Some(n) => Some(Name(n.raw, at + 2, if n.pointers == 0 then at + 2 else n.last, n.pointers + 1))
    else if msg[at] == 0 then Some(Name([], at + 1, at + 1, 0))
    else if msg[at] > MAX_LABEL || at + 1 + msg[at] as int > |msg| then None
    else
      var size := 1 + msg[at] as int;
      match ReadName(msg, at + size, floor)
      case None => None
      case Some(n) => Some(n.(raw := msg[at..at + size] + n.raw))
  }

  /** A label behind its length. */
  function Labelled(part: seq<byte>): (s: seq<byte>)
    requires |part| <= MAX_LABEL
    ensures |s| == 1 + |part|
  {
    [|part|] + part
  }

  /** The name with more labels in front. */
  function Before(raw: seq<byte>, n: Option<Name>): Option<Name> {
    match n
    case None => None
    case Some(m) => Some(m.(raw := raw + m.raw))
  }

  lemma ReadsLabel(msg: seq<byte>, at: nat, floor: nat, part: seq<byte>)
    requires 1 <= |part| <= MAX_LABEL && at + 1 + |part| <= |msg| && msg[at..at + 1 + |part|] == Labelled(part)
    ensures ReadName(msg, at, floor) == Before(Labelled(part), ReadName(msg, at + 1 + |part|, floor))
  {
    assert msg[at] == msg[at..at + 1 + |part|][0] == |part|;
  }

  /** A series of labels in a message is read back, and reading goes on behind it. */
  lemma {:induction false} ReadsLabels(msg: seq<byte>, at: nat, floor: nat, labels: seq<seq<byte>>)
    requires Regular(labels) && Short(labels)
    requires at + |Wire(labels)| <= |msg| && msg[at..at + |Wire(labels)|] == Wire(labels)
    ensures ReadName(msg, at, floor) == Before(Wire(labels), ReadName(msg, at + |Wire(labels)|, floor))
    decreases |labels|
  {
    hide ReadName, Before, Labelled;
    if labels == [] {
      BeforeNothing(ReadName(msg, at, floor));
    } else {
      var first, rest: seq<byte> := Labelled(labels[0]), Wire(labels[1..]);
      WireStep(labels);
      SplitWindow(msg, at, first, rest, |first|);
      ReadsLabel(msg, at, floor, labels[0]);
      ReadsLabels(msg, at + |first|, floor, labels[1..]);
      BeforeBoth(first, rest, ReadName(msg, at + |first| + |rest|, floor));
    }
  }

  lemma WireStep(labels: seq<seq<byte>>)
    requires Short(labels) && labels != []
    ensures Wire(labels) == Labelled(labels[0]) + Wire(labels[1..])
  {
  }

  lemma BeforeNothing(n: Option<Name>)
    ensures Before([], n) == n
  {
    if n.Some? { assert [] + n.value.raw == n.value.raw; }
  }

  lemma BeforeBoth(a: seq<byte>, b: seq<byte>, n: Option<Name>)
    ensures Before(a, Before(b, n)) == Before(a + b, n)
  {
    if n.Some? { assert a + (b + n.value.raw) == a + b + n.value.raw; }
  }

  lemma ReadsZero(msg: seq<byte>, at: nat, floor: nat)
    requires at < |msg| && msg[at] == 0
    ensures ReadName(msg, at, floor) == Some(Name([], at + 1, at + 1, 0))
  {
  }

  /** A name with its terminator. */
  function Whole(labels: seq<seq<byte>>): (s: seq<byte>)
    requires Short(labels)
    ensures |s| == |Wire(labels)| + 1
  {
    Wire(labels) + [0]
  }

  /** Reading back an uncompressed name. */
  lemma ReadsWholeName(msg: seq<byte>, at: nat, floor: nat, labels: seq<seq<byte>>)
    requires Regular(labels) && Short(labels)
    requires at + |Whole(labels)| <= |msg| && msg[at..at + |Whole(labels)|] == Whole(labels)
    ensures var end := at + |Whole(labels)|; ReadName(msg, at, floor) == Some(Name(Wire(labels), end, end, 0))
  {
    hide ReadName, Wire, Regular;
    var zero: seq<byte> := [0];
    SplitWindow(msg, at, Wire(labels), zero, |Wire(labels)|);
    var end := at + |Wire(labels)|;
    assert msg[end] == msg[end..end + 1][0] == 0;
    ReadsLabels(msg, at, floor, labels);
    ReadsZero(msg, end, floor);
    assert Wire(labels) + [] == Wire(labels);
  }

  /** A compression pointer. */
  function Pointer(target: nat): (s: seq<byte>)
    requires target < 0x4000
    ensures |s| == 2
  {
    [0xc0 + target / 0x100, target % 0x100]
  }

  lemma ReadsPointer(msg: seq<byte>, at: nat, floor: nat, target: nat)
    requires target < 0x4000 && target < floor && at + 2 <= |msg| && msg[at..at + 2] == Pointer(target)
    requires ReadName(msg, target, target).Some? && ReadName(msg, target, target).value.pointers == 0
    ensures ReadName(msg, at, floor) == Some(Name(ReadName(msg, target, target).value.raw, at + 2, at + 2, 1))
  {
    assert msg[at] == msg[at..at + 2][0] && msg[at + 1] == msg[at..at + 2][1];
    assert Target(msg, at) == target;
  }

  /** Replacing a suffix by one pointer to an earlier occurrence gives the same name; the data behind it starts
      just past the pointer. */
  lemma PointerReplacesSuffix(msg: seq<byte>, at: nat, floor: nat, prefix: seq<seq<byte>>, suffix: seq<seq<byte>>,
                              target: nat)
    requires Regular(prefix) && Short(prefix) && Regular(suffix) && Short(suffix)
    requires target < floor && target < 0x4000
    requires target + |Whole(suffix)| <= |msg| && msg[target..target + |Whole(suffix)|] == Whole(suffix)
    requires var w := Wire(prefix) + Pointer(target); at + |w| <= |msg| && msg[at..at + |w|] == w
    ensures var end := at + |Wire(prefix)| + 2;
            Short(prefix + suffix)
            && ReadName(msg, at, floor) == Some(Name(Wire(prefix + suffix), end, end, 1))
  {
    hide ReadName, Wire, Regular, Pointer, Whole;
    SplitWindow(msg, at, Wire(prefix), Pointer(target), |Wire(prefix)|);
    ReadsWholeName(msg, target, target, suffix);
    ReadsPointer(msg, at + |Wire(prefix)|, floor, target);
    ReadsLabels(msg, at, floor, prefix);
    WireAppends(prefix, suffix);
  }

  // ----- chained pointers

  /** The last pointer of a chain goes to before the segment it is read from. */
  lemma {:induction false} LastPointer(msg: seq<byte>, at: nat, floor: nat)
    requires ReadName(msg, at, floor).Some? && ReadName(msg, at, floor).value.pointers > 0
    ensures var last := ReadName(msg, at, floor).value.last;
            last >= 2 && last - 1 < |msg| && msg[last - 2] >= 0xc0 && Target(msg, last - 2) < floor
    decreases floor, |msg| - at
  {
    if msg[at] >= 0xc0 {
      if ReadName(msg, Target(msg, at), Target(msg, at)).value.pointers > 0 {
        LastPointer(msg, Target(msg, at), Target(msg, at));
      }
    } else {
      LastPointer(msg, at + 1 + msg[at] as int, floor);
    }
  }

  /** The position behind the last pointer is where the data behind the name starts exactly if at most one
      pointer was followed. */
  lemma {:induction false} LastIsNextUnlessChained(msg: seq<byte>, at: nat, floor: nat)
    requires ReadName(msg, at, floor).Some?
    ensures var n := ReadName(msg, at, floor).value; n.last == n.next <==> n.pointers <= 1
    decreases floor, |msg| - at
  {
    if msg[at] >= 0xc0 {
      if ReadName(msg, Target(msg, at), Target(msg, at)).value.pointers > 0 {
        LastPointer(msg, Target(msg, at), Target(msg, at));
      }
    } else if msg[at] != 0 {
      LastIsNextUnlessChained(msg, at + 1 + msg[at] as int, floor);
    }
  }
}
