/** Reassembly of IPv4 fragments in one buffer (lib/libnet/ipv4.c; section 3.2 of RFC 791). */
module Reassembly {
  import opened Bytes

  const HEADER := 20
  const ETH_MTU_SIZE := 1518
  const HEAP_SIZE := 0x1_0000 + ETH_MTU_SIZE

  // ----- header fields; the fragment offset counts units of 8 bytes

  function Len(p: seq<byte>): uint16
    requires |p| >= HEADER
  {
    FromBe16(p[2..4])
  }

  function Offset(p: seq<byte>): (n: nat)
    requires |p| >= HEADER
    ensures n < 0x2000
  {
    FromBe16(p[6..8]) % 0x2000
  }

  predicate More(p: seq<byte>)
    requires |p| >= HEADER
  {
    FromBe16(p[6..8]) / 0x2000 % 2 == 1
  }

  /** What all fragments of a datagram share: identification, protocol, source and destination. */
  datatype Key = Key(id: seq<byte>, proto: byte, src: seq<byte>, dst: seq<byte>)

  function KeyOf(p: seq<byte>): Key
    requires |p| >= HEADER
  {
    Key(p[4..6], p[9], p[12..16], p[16..20])
  }

  /** A packet, with the memory behind it, for which the code stays within its buffers. It does not compare the
      length field with what was received. A packet that fits a frame and holds as much as its length field
      says is one. */
  predicate InBounds(p: seq<byte>) {
    && HEADER <= |p| && Len(p) <= |p|
    && (Offset(p) > 0 ==> HEADER <= Len(p) && 8 * Offset(p) + Len(p) as int <= HEAP_SIZE)
  }

  function Payload(p: seq<byte>): (d: seq<byte>)
    requires |p| >= HEADER && HEADER <= Len(p) <= |p|
    ensures |d| == Len(p) - HEADER
  {
    p[HEADER..Len(p)]
  }

  // ----- the fragment part of handle_ipv4

  /** The new contents of the buffer, and the packet that is handed up, if any. */
  function Handle(heap: seq<byte>, p: seq<byte>): (r: (seq<byte>, Option<seq<byte>>))
    requires |heap| == HEAP_SIZE && InBounds(p)
    ensures |r.0| == HEAP_SIZE
  {
    if Offset(p) == 0 then
      if More(p) then (Patch(heap, 0, p[..Len(p)]), None) else (heap, Some(p))
    else if KeyOf(heap) != KeyOf(p) then (heap, None)
    else
      var heap1 := Patch(heap, HEADER + 8 * Offset(p), Payload(p));
      if More(p) then (heap1, None)
      else
        var heap2 := Patch(heap1, 2, Be16((Len(p) + 8 * Offset(p)) % 0x1_0000));
        (heap2, Some(heap2))
  }

  class Reassembler {
    const heap: array<byte>

    constructor ()
      ensures heap.Length == HEAP_SIZE && fresh(heap)
    {
      heap := new byte[HEAP_SIZE](_ => 0);
    }

    /** The fragment part of handle_ipv4. */
    method HandlePacket(p: seq<byte>) returns (packet: Option<seq<byte>>)
      requires heap.Length == HEAP_SIZE && InBounds(p)
      modifies heap
      ensures (heap[..], packet) == Handle(old(heap[..]), p)
    {
      hide Patch, Be16, KeyOf, FromBe16;
      if Offset(p) == 0 {
        if More(p) {
          Store(heap, 0, p[..Len(p)]);
          return None;
        }
        return Some(p);
      }
      var first := heap[..];
      if KeyOf(first) != KeyOf(p) {
        return None;
      }
      Store(heap, HEADER + 8 * Offset(p), Payload(p));
      if More(p) {
        return None;
      }
      Store(heap, 2, Be16((Len(p) + 8 * Offset(p)) % 0x1_0000));
      packet := Some(heap[..]);
    }
  }

  // ----- datagrams

  /** A fragment of the datagram with the given key and data. */
  predicate Piece(p: seq<byte>, key: Key, data: seq<byte>) {
    && InBounds(p) && HEADER <= Len(p) && KeyOf(p) == key
    && 8 * Offset(p) + |Payload(p)| <= |data|
    && Payload(p) == data[8 * Offset(p)..8 * Offset(p) + |Payload(p)|]
    && (!More(p) ==> 8 * Offset(p) + |Payload(p)| == |data|)
  }

  /** An unfragmented packet, or a fragment of another datagram that is not its first one. */
  predicate Noise(p: seq<byte>, key: Key) {
    InBounds(p) && if Offset(p) == 0 then !More(p) else KeyOf(p) != key
  }

  predicate Has(p: seq<byte>, i: nat)
    requires InBounds(p)
  {
    HEADER <= Len(p) && 8 * Offset(p) <= i < 8 * Offset(p) + |Payload(p)|
  }

  /** A middle fragment, or noise. */
  predicate Between(p: seq<byte>, key: Key, data: seq<byte>) {
    Noise(p, key) || (Piece(p, key, data) && Offset(p) > 0 && More(p))
  }

  predicate AllBetween(ps: seq<seq<byte>>, key: Key, data: seq<byte>) {
    forall k :: 0 <= k < |ps| ==> Between(ps[k], key, data)
  }

  /** Byte `i` of the data arrives in one of the middle fragments. */
  predicate Arrives(ps: seq<seq<byte>>, key: Key, i: nat) {
    exists k :: 0 <= k < |ps| && InBounds(ps[k]) && Offset(ps[k]) > 0 && KeyOf(ps[k]) == key && Has(ps[k], i)
  }

  function HandleAll(heap: seq<byte>, ps: seq<seq<byte>>): (r: seq<byte>)
    requires |heap| == HEAP_SIZE && forall k :: 0 <= k < |ps| ==> InBounds(ps[k])
    ensures |r| == HEAP_SIZE
    decreases |ps|
  {
    if ps == [] then heap else HandleAll(Handle(heap, ps[0]).0, ps[1..])
  }

  /** The buffer holds the header, and byte `i` of the data. */
  predicate Good(heap: seq<byte>, key: Key, data: seq<byte>, i: nat) {
    |heap| == HEAP_SIZE && KeyOf(heap) == key && i < |data| <= 0xffff - HEADER && heap[HEADER + i] == data[i]
  }

  lemma PieceStored(heap: seq<byte>, p: seq<byte>, key: Key, data: seq<byte>, i: nat)
    requires |heap| == HEAP_SIZE && KeyOf(heap) == key && i < |data| <= 0xffff - HEADER
    requires Between(p, key, data)
    ensures KeyOf(Handle(heap, p).0) == key
    ensures Good(heap, key, data, i) || (Offset(p) > 0 && KeyOf(p) == key && Has(p, i)) ==>
              Good(Handle(heap, p).0, key, data, i)
  {
    hide Be16, FromBe16;
    if Offset(p) > 0 && KeyOf(p) == key {
      var at, d := HEADER + 8 * Offset(p), Payload(p);
      var heap1 := Patch(heap, at, d);
      assert forall j :: 0 <= j < HEADER ==> heap1[j] == heap[j];
      assert KeyOf(heap1) == KeyOf(heap);
      if Has(p, i) {
        assert heap1[HEADER + i] == d[i - 8 * Offset(p)] == data[i];
      }
    }
  }

  /** After the middle fragments, in any order and with any repetitions and noise, every byte that has arrived
      is in its place. */
  lemma {:induction false} MiddleStored(heap: seq<byte>, ps: seq<seq<byte>>, key: Key, data: seq<byte>, i: nat)
    requires |heap| == HEAP_SIZE && KeyOf(heap) == key && i < |data| <= 0xffff - HEADER
    requires AllBetween(ps, key, data)
    requires Good(heap, key, data, i) || Arrives(ps, key, i)
    ensures Good(HandleAll(heap, ps), key, data, i)
    decreases |ps|
  {
    hide KeyOf, Has, Handle, Payload, Offset, Len, More, Good;
    if ps != [] {
      var heap1 := Handle(heap, ps[0]).0;
      assert Between(ps[0], key, data);
      PieceStored(heap, ps[0], key, data, i);
      if Arrives(ps, key, i) && !Good(heap1, key, data, i) {
        var k :| 0 <= k < |ps| && InBounds(ps[k]) && Offset(ps[k]) > 0 && KeyOf(ps[k]) == key && Has(ps[k], i);
        assert ps[k] == ps[1..][k - 1];
      }
      MiddleStored(heap1, ps[1..], key, data, i);
    }
  }

  /** The first fragment fills the buffer from its start. */
  lemma FirstStored(heap: seq<byte>, p: seq<byte>, key: Key, data: seq<byte>, i: nat)
    requires |heap| == HEAP_SIZE && Piece(p, key, data) && Offset(p) == 0 && More(p) && |data| <= 0xffff - HEADER
    ensures KeyOf(Handle(heap, p).0) == key
    ensures i < |Payload(p)| ==> Good(Handle(heap, p).0, key, data, i)
  {
    hide Be16, FromBe16;
    var s := p[..Len(p)];
    var heap1 := Patch(heap, 0, s);
    assert forall j :: 0 <= j < HEADER ==> heap1[j] == s[j] == p[j];
    assert KeyOf(heap1) == KeyOf(p);
    if i < |Payload(p)| {
      assert heap1[HEADER + i] == s[HEADER + i] == Payload(p)[i];
    }
  }

  /** A byte that no fragment brings is still what it was. */
  lemma PieceLeaves(heap: seq<byte>, p: seq<byte>, key: Key, data: seq<byte>, i: nat)
    requires |heap| == HEAP_SIZE && KeyOf(heap) == key && i < |data| <= 0xffff - HEADER && Between(p, key, data)
    requires !(Offset(p) > 0 && KeyOf(p) == key && Has(p, i))
    ensures Handle(heap, p).0[HEADER + i] == heap[HEADER + i]
  {
    hide Be16, FromBe16;
  }

  lemma {:induction false} MiddleLeaves(heap: seq<byte>, ps: seq<seq<byte>>, key: Key, data: seq<byte>, i: nat)
    requires |heap| == HEAP_SIZE && KeyOf(heap) == key && i < |data| <= 0xffff - HEADER
    requires AllBetween(ps, key, data) && !Arrives(ps, key, i)
    ensures HandleAll(heap, ps)[HEADER + i] == heap[HEADER + i]
    decreases |ps|
  {
    hide KeyOf, Has, Handle, Payload, Offset, Len, More, Good;
    if ps != [] {
      assert Between(ps[0], key, data);
      PieceStored(heap, ps[0], key, data, i);
      PieceLeaves(heap, ps[0], key, data, i);
      assert forall k :: 0 <= k < |ps| - 1 ==> ps[1..][k] == ps[k + 1];
      MiddleLeaves(Handle(heap, ps[0]).0, ps[1..], key, data, i);
    }
  }

  lemma FirstLeaves(heap: seq<byte>, p: seq<byte>, key: Key, data: seq<byte>, i: nat)
    requires |heap| == HEAP_SIZE && Piece(p, key, data) && Offset(p) == 0 && More(p)
    requires |Payload(p)| <= i < |data| <= 0xffff - HEADER
    ensures Handle(heap, p).0[HEADER + i] == heap[HEADER + i]
  {
    hide Be16, FromBe16;
  }

  /** The last fragment hands up the buffer whatever has arrived. */
  lemma LastHandsUp(heap: seq<byte>, p: seq<byte>, key: Key, data: seq<byte>)
    requires |heap| == HEAP_SIZE && KeyOf(heap) == key && |data| <= 0xffff - HEADER
    requires Piece(p, key, data) && Offset(p) > 0 && !More(p)
    ensures Handle(heap, p).1.Some?
    ensures var packet := Handle(heap, p).1.value;
            && |packet| == HEAP_SIZE && KeyOf(packet) == key && Len(packet) == HEADER + |data|
            && forall i :: 0 <= i < |data| ==> Payload(packet)[i] == if Has(p, i) then data[i] else heap[HEADER + i]
  {
    hide Be16, FromBe16;
    var d, len := Payload(p), Len(p) + 8 * Offset(p);
    var heap1 := Patch(heap, HEADER + 8 * Offset(p), d);
    assert len == HEADER + |data|;
    var heap2 := Patch(heap1, 2, Be16(len));
    assert heap2[2..4] == Be16(len);
    assert KeyOf(heap2) == KeyOf(heap) by {
      assert forall j :: 4 <= j < HEADER ==> heap2[j] == heap[j];
    }
    forall i | 0 <= i < |data|
      ensures heap2[HEADER + i] == if Has(p, i) then data[i] else heap[HEADER + i]
    {
      if Has(p, i) {
        assert heap1[HEADER + i] == d[i - 8 * Offset(p)] == data[i];
      }
    }
  }

  /** Byte `i` of the data arrives in one of the fragments. */
  predicate Brought(first: seq<byte>, middle: seq<seq<byte>>, last: seq<byte>, key: Key, i: nat)
    requires InBounds(first) && InBounds(last)
  {
    Has(first, i) || Arrives(middle, key, i) || Has(last, i)
  }

  /** What is handed up if the first fragment arrives first and the last one last, whatever order, repetitions,
      gaps and noise there were between: the bytes that were brought, and for the others what was in the buffer
      before. */
  lemma HandsUp(heap: seq<byte>, first: seq<byte>, middle: seq<seq<byte>>, last: seq<byte>, key: Key, data: seq<byte>)
    requires |heap| == HEAP_SIZE && |data| <= 0xffff - HEADER
    requires Piece(first, key, data) && Offset(first) == 0 && More(first)
    requires AllBetween(middle, key, data)
    requires Piece(last, key, data) && Offset(last) > 0 && !More(last)
    ensures Handle(HandleAll(heap, [first] + middle), last).1.Some?
    ensures var packet := Handle(HandleAll(heap, [first] + middle), last).1.value;
            && |packet| == HEAP_SIZE && KeyOf(packet) == key && Len(packet) == HEADER + |data|
            && forall i :: 0 <= i < |data| ==>
                 Payload(packet)[i] == if Brought(first, middle, last, key, i) then data[i] else heap[HEADER + i]
  {
    hide KeyOf, Handle, Payload, Offset, Len, More, Good, Arrives;
    assert |data| >= 8 * Offset(last) > 0;
    assert ([first] + middle)[1..] == middle;
    var heap0 := Handle(heap, first).0;
    var heap1 := HandleAll(heap0, middle);
    FirstStored(heap, first, key, data, 0);
    MiddleKeepsKey(heap0, middle, key, data);
    LastHandsUp(heap1, last, key, data);
    forall i | 0 <= i < |data| && !Has(last, i)
      ensures heap1[HEADER + i] == if Has(first, i) || Arrives(middle, key, i) then data[i] else heap[HEADER + i]
    {
      StoredOrLeft(heap, first, middle, key, data, i);
    }
  }

  lemma StoredOrLeft(heap: seq<byte>, first: seq<byte>, middle: seq<seq<byte>>, key: Key, data: seq<byte>, i: nat)
    requires |heap| == HEAP_SIZE && i < |data| <= 0xffff - HEADER
    requires Piece(first, key, data) && Offset(first) == 0 && More(first) && AllBetween(middle, key, data)
    ensures HandleAll(Handle(heap, first).0, middle)[HEADER + i]
            == if Has(first, i) || Arrives(middle, key, i) then data[i] else heap[HEADER + i]
  {
    hide KeyOf, Handle, Arrives, Len, More;
    var heap0 := Handle(heap, first).0;
    FirstStored(heap, first, key, data, i);
    if Has(first, i) || Arrives(middle, key, i) {
      MiddleStored(heap0, middle, key, data, i);
    } else {
      FirstLeaves(heap, first, key, data, i);
      MiddleLeaves(heap0, middle, key, data, i);
    }
  }

  /** Reassembly: the packet handed up has the data of the datagram exactly if every byte that no fragment
      brought was already in the buffer; so if every byte was brought, it has. */
  lemma ReassemblesDatagram(heap: seq<byte>, first: seq<byte>, middle: seq<seq<byte>>, last: seq<byte>,
                            key: Key, data: seq<byte>)
    requires |heap| == HEAP_SIZE && |data| <= 0xffff - HEADER
    requires Piece(first, key, data) && Offset(first) == 0 && More(first)
    requires AllBetween(middle, key, data)
    requires Piece(last, key, data) && Offset(last) > 0 && !More(last)
    ensures var r := Handle(HandleAll(heap, [first] + middle), last).1;
            && r.Some? && |r.value| == HEAP_SIZE && KeyOf(r.value) == key && Len(r.value) == HEADER + |data|
            && (Payload(r.value) == data <==>
                forall i :: 0 <= i < |data| && !Brought(first, middle, last, key, i) ==> heap[HEADER + i] == data[i])
  {
    hide KeyOf, Handle, HandleAll, Payload, Offset, Len, More, Brought;
    HandsUp(heap, first, middle, last, key, data);
    var d := Payload(Handle(HandleAll(heap, [first] + middle), last).1.value);
    assert |d| == |data|;
    assert d == data <==> forall i :: 0 <= i < |data| ==> d[i] == data[i];
  }

  lemma {:induction false} MiddleKeepsKey(heap: seq<byte>, ps: seq<seq<byte>>, key: Key, data: seq<byte>)
    requires |heap| == HEAP_SIZE && KeyOf(heap) == key && |data| <= 0xffff - HEADER && AllBetween(ps, key, data)
    requires data != []
    ensures KeyOf(HandleAll(heap, ps)) == key
    decreases |ps|
  {
    hide KeyOf, Handle, Good, Has;
    if ps != [] {
      assert Between(ps[0], key, data);
      PieceStored(heap, ps[0], key, data, 0);
      MiddleKeepsKey(Handle(heap, ps[0]).0, ps[1..], key, data);
    }
  }

  /** The first fragment of another datagram ends a reassembly: what is left of it is dropped. */
  lemma OtherFirstFragmentWins(heap: seq<byte>, other: seq<byte>, p: seq<byte>)
    requires |heap| == HEAP_SIZE && InBounds(other) && HEADER <= Len(other) && Offset(other) == 0 && More(other)
    requires InBounds(p) && Offset(p) > 0 && KeyOf(p) != KeyOf(other)
    ensures Handle(Handle(heap, other).0, p) == (Handle(heap, other).0, None)
  {
    hide Be16, FromBe16;
    var s := other[..Len(other)];
    var heap1 := Patch(heap, 0, s);
    assert forall j :: 0 <= j < HEADER ==> heap1[j] == s[j] == other[j];
    assert KeyOf(heap1) == KeyOf(other);
  }
}
