/** The receive rings of lib/libbcm/bcm57xx.c: 64 buffers circulate from the producer ring through the
    network controller and the return ring back to the producer ring, while driver and controller run at
    the same time. */
module BcmRx {
  import opened Arith
  import opened Bytes

  const PROD_RING := 512
  const BUFFERS := 64
  const BUF_SIZE := 1536
  const CHECKSUM_SIZE := 4

  /** A receive descriptor: the buffer its host address points to (None for a null address), the index
      and length halves of its second word, and the error flag. */
  datatype Bd = Bd(buffer: Option<nat>, index: nat, length: nat, bad: bool)

  /** A frame the controller received, with its checksum. */
  datatype Reception = Reception(frame: seq<byte>, bad: bool)

  /** Where the driver is inside bcm_receive; `prod` and `cons` are the registers it read on entry,
      `limit` is the caller's buffer length and `out` what it copied there. */
  datatype Pc =
    | Idle
    | Copying(prod: nat, cons: nat, limit: nat)
    | Replenishing(prod: nat, cons: nat, limit: nat, out: seq<byte>)
    | Advancing(prod: nat, cons: nat, limit: nat, out: seq<byte>)
    | Publishing(prod: nat, limit: nat, out: seq<byte>)

  /** The rings, the buffers and the four index registers; the buffers inside the controller, with the room
      their descriptors announced; and as
      histories the buffers supplied to the producer ring, how many the controller fetched, the receptions
      with their buffers, how many the driver took, and the calls completed with what they returned. */
  datatype Rx = Rx(
    prodRing: seq<Bd>, retRing: seq<Bd>, retSize: nat, memory: seq<seq<byte>>,
    prodReg: nat, prodCons: nat, retProd: nat, retReg: nat, held: set<nat>, room: map<nat, nat>, pc: Pc,
    supplied: seq<nat>, fetched: nat, received: seq<Reception>, receivedIn: seq<nat>, taken: nat,
    limits: seq<nat>, delivered: seq<seq<byte>>)

  predicate Shaped(t: Rx) {
    && |t.prodRing| == PROD_RING && (t.retSize == 512 || t.retSize == 1024) && |t.retRing| == 1024
    && |t.memory| == BUFFERS && (forall b :: 0 <= b < BUFFERS ==> |t.memory[b]| == BUF_SIZE)
    && t.prodReg < PROD_RING && t.prodCons < PROD_RING && t.retProd < t.retSize && t.retReg < t.retSize
    && (t.pc != Idle ==> t.pc.prod < PROD_RING)
    && (t.pc.Copying? || t.pc.Replenishing? || t.pc.Advancing? ==> t.pc.cons < t.retSize)
    && (forall b :: b in t.held ==> b < BUFFERS)
    && |t.received| == |t.receivedIn|
  }

  /** The state behind the ring initialisation and the write of 64 to the producer index. */
  function Init(memory: seq<seq<byte>>, retSize: nat): Rx {
    Rx(seq(PROD_RING, i => if 0 <= i < BUFFERS then Bd(Some(i), i, BUF_SIZE, false) else Bd(None, 0, 0, false)),
       seq(1024, _ => Bd(None, 0, 0, false)), retSize, memory,
       BUFFERS, 0, 0, 0, {}, map[], Idle, seq(BUFFERS, i => i), 0, [], [], 0, [], [])
  }

  /** What a call with buffer length `limit` hands up for a reception: the frame without its checksum, or
      nothing if it is erroneous or too long. */
  function Deliver(r: Reception, limit: nat): seq<byte>
    requires |r.frame| >= CHECKSUM_SIZE
  {
    if r.bad || |r.frame| - CHECKSUM_SIZE > limit then [] else r.frame[..|r.frame| - CHECKSUM_SIZE]
  }

  // ----- the steps of the driver and of the controller

  datatype Event = Call(limit: nat) | Copy | Replenish | Advance | Publish
                 | NicFetch | NicReceive(buffer: nat, reception: Reception)

  predicate Enabled(t: Rx, e: Event) {
    Shaped(t) &&
    match e
    case Call(_) => t.pc.Idle?
    case Copy => t.pc.Copying? && CHECKSUM_SIZE <= t.retRing[t.pc.cons].length <= BUF_SIZE
                 && (t.retRing[t.pc.cons].buffer.Some? ==> t.retRing[t.pc.cons].buffer.value < BUFFERS)
    case Replenish => t.pc.Replenishing?
    case Advance => t.pc.Advancing?
    case Publish => t.pc.Publishing? && t.prodRing[t.pc.prod].buffer.Some?
    case NicFetch => t.prodCons != t.prodReg && t.prodRing[t.prodCons].buffer.Some?
                     && t.prodRing[t.prodCons].buffer.value < BUFFERS
    case NicReceive(b, r) =>
      b in t.held && b in t.room && CHECKSUM_SIZE <= |r.frame| <= t.room[b] && |r.frame| <= BUF_SIZE
  }

  /** bcm_receive reads the registers; with an empty return ring it returns 0 at once. */
  function CallStep(t: Rx, limit: nat): Rx {
    if t.retProd == t.retReg then t else t.(pc := Copying(t.prodReg, t.retReg, limit))
  }

  /** The length computation and the copy; a null address makes the call return 0 with nothing done. */
  function CopyStep(t: Rx): Rx
    requires Enabled(t, Copy)
  {
    var bd := t.retRing[t.pc.cons];
    var length := if bd.bad || bd.length - CHECKSUM_SIZE > t.pc.limit then 0 else bd.length - CHECKSUM_SIZE;
    if length != 0 && bd.buffer.None? then t.(pc := Idle)
    else
      var out := if length == 0 then [] else t.memory[bd.buffer.value][..length];
      t.(pc := Replenishing(t.pc.prod, t.pc.cons, t.pc.limit, out))
  }

  /** The descriptor goes back to the producer ring. */
  function ReplenishStep(t: Rx): Rx
    requires Enabled(t, Replenish)
  {
    var bd := t.retRing[t.pc.cons].(index := t.pc.prod, length := BUF_SIZE);
    t.(prodRing := t.prodRing[t.pc.prod := bd], pc := Advancing(t.pc.prod, t.pc.cons, t.pc.limit, t.pc.out))
  }

  /** The consumer index of the return ring is written. */
  function AdvanceStep(t: Rx): Rx
    requires Enabled(t, Advance)
  {
    t.(retReg := (t.pc.cons + 1) % t.retSize, taken := t.taken + 1,
       pc := Publishing(t.pc.prod, t.pc.limit, t.pc.out))
  }

  /** The producer index of the producer ring is written, and the call returns. */
  function PublishStep(t: Rx): Rx
    requires Enabled(t, Publish)
  {
    t.(prodReg := (t.pc.prod + 1) % PROD_RING, pc := Idle,
       supplied := t.supplied + [t.prodRing[t.pc.prod].buffer.value],
       limits := t.limits + [t.pc.limit], delivered := t.delivered + [t.pc.out])
  }

  /** The controller takes the next buffer of the producer ring, and notes the length it announces. */
  function FetchStep(t: Rx): Rx
    requires Enabled(t, NicFetch)
  {
    t.(prodCons := (t.prodCons + 1) % PROD_RING, fetched := t.fetched + 1,
       held := t.held + {t.prodRing[t.prodCons].buffer.value},
       room := t.room[t.prodRing[t.prodCons].buffer.value := t.prodRing[t.prodCons].length])
  }

  /** The controller stores a frame in any buffer it holds that has room for it, and puts it on the return
      ring. */
  function ReceiveStep(t: Rx, b: nat, r: Reception): Rx
    requires Enabled(t, NicReceive(b, r))
  {
    t.(memory := t.memory[b := Patch(t.memory[b], 0, r.frame)],
       retRing := t.retRing[t.retProd := Bd(Some(b), 0, |r.frame|, r.bad)],
       retProd := (t.retProd + 1) % t.retSize, held := t.held - {b},
       received := t.received + [r], receivedIn := t.receivedIn + [b])
  }

  function Step(t: Rx, e: Event): Rx
    requires Enabled(t, e)
  {
    match e
    case Call(limit) => CallStep(t, limit)
    case Copy => CopyStep(t)
    case Replenish => ReplenishStep(t)
    case Advance => AdvanceStep(t)
    case Publish => PublishStep(t)
    case NicFetch => FetchStep(t)
    case NicReceive(b, r) => ReceiveStep(t, b, r)
  }

  // ----- the invariant

  /** The buffer between the two rings, while only the first of the two index writes is done. */
  function InHand(t: Rx): multiset<nat>
    requires |t.received| == |t.receivedIn|
  {
    if t.pc.Publishing? && 0 < t.taken <= |t.receivedIn| then multiset{t.receivedIn[t.taken - 1]} else multiset{}
  }

  /** Each of the buffers 0 to `n` - 1 exactly once. */
  ghost predicate OnceEach(m: multiset<nat>, n: nat) {
    forall b: nat :: m[b] == if b < n then 1 else 0
  }

  lemma {:induction false} OnceEachSize(m: multiset<nat>, n: nat)
    requires OnceEach(m, n)
    ensures |m| == n
  {
    if n == 0 {
      assert m == multiset{};
    } else {
      assert m[n - 1] == 1;
      OnceEachSize(m - multiset{n - 1}, n - 1);
    }
  }

  /** Where the buffers are: supplied and not fetched, inside the controller, received and not taken, or in
      the driver's hand. */
  function Places(t: Rx): multiset<nat>
    requires Shaped(t) && t.fetched <= |t.supplied| && t.taken <= |t.received|
  {
    multiset(t.supplied[t.fetched..]) + multiset(t.held) + multiset(t.receivedIn[t.taken..]) + InHand(t)
  }

  predicate Counted(t: Rx)
    requires Shaped(t)
  {
    && t.fetched <= |t.supplied| && t.taken <= |t.received|
    && t.prodReg == |t.supplied| % PROD_RING && t.prodCons == t.fetched % PROD_RING
    && t.retProd == |t.received| % t.retSize && t.retReg == t.taken % t.retSize
  }

  /** The descriptor in a slot of the producer ring announces a buffer, its own slot, and the full length. */
  predicate Announces(bd: Bd, slot: nat, b: nat) { bd.buffer == Some(b) && bd.index == slot && bd.length == BUF_SIZE }

  predicate SuppliedOk(t: Rx)
    requires Shaped(t)
  {
    forall n :: t.fetched <= n < |t.supplied| ==> Announces(t.prodRing[n % PROD_RING], n % PROD_RING, t.supplied[n])
  }

  /** The controller may fill every buffer it holds completely. */
  predicate RoomOk(t: Rx) { forall b :: b in t.held ==> b in t.room && t.room[b] == BUF_SIZE }

  /** The n-th reception is announced by its descriptor, and its frame is intact in its buffer. */
  predicate Holds(t: Rx, n: nat)
    requires Shaped(t) && n < |t.received|
  {
    var bd, b := t.retRing[n % t.retSize], t.receivedIn[n];
    && b < BUFFERS && bd.buffer == Some(b) && bd.length == |t.received[n].frame| && bd.bad == t.received[n].bad
    && bd.length <= BUF_SIZE && t.memory[b][..bd.length] == t.received[n].frame
  }

  predicate ReceivedOk(t: Rx)
    requires Shaped(t)
  {
    && (forall n :: 0 <= n < |t.received| ==> |t.received[n].frame| >= CHECKSUM_SIZE)
    && forall n :: t.taken <= n < |t.received| ==> Holds(t, n)
  }

  predicate DeliveredOk(t: Rx)
    requires Shaped(t)
  {
    && |t.delivered| == |t.limits| == (if t.pc.Publishing? then t.taken - 1 else t.taken) <= |t.received|
    && forall n :: 0 <= n < |t.delivered| ==>
         |t.received[n].frame| >= CHECKSUM_SIZE && t.delivered[n] == Deliver(t.received[n], t.limits[n])
  }

  predicate AtPc(t: Rx)
    requires Shaped(t) && Counted(t) && ReceivedOk(t)
  {
    match t.pc
    case Idle => true
    case Copying(prod, cons, limit) => prod == t.prodReg && cons == t.retReg && t.taken < |t.received|
    case Replenishing(prod, cons, limit, out) =>
      prod == t.prodReg && cons == t.retReg && t.taken < |t.received| && out == Deliver(t.received[t.taken], limit)
    case Advancing(prod, cons, limit, out) =>
      && prod == t.prodReg && cons == t.retReg && t.taken < |t.received|
      && out == Deliver(t.received[t.taken], limit)
      && Announces(t.prodRing[prod], prod, t.receivedIn[t.taken])
    case Publishing(prod, limit, out) =>
      && prod == t.prodReg && t.taken > 0 && out == Deliver(t.received[t.taken - 1], limit)
      && Announces(t.prodRing[prod], prod, t.receivedIn[t.taken - 1])
  }

  ghost predicate Inv(t: Rx) {
    && Shaped(t) && Counted(t) && OnceEach(Places(t), BUFFERS)
    && SuppliedOk(t) && RoomOk(t) && ReceivedOk(t) && DeliveredOk(t) && AtPc(t)
  }

  // ----- counting buffers

  lemma Rest<T>(s: seq<T>, n: nat)
    requires n < |s|
    ensures multiset(s[n..]) == multiset{s[n]} + multiset(s[n + 1..])
  {
    assert s[n..] == [s[n]] + s[n + 1..];
  }

  lemma Appended<T>(s: seq<T>, n: nat, x: T)
    requires n <= |s|
    ensures multiset((s + [x])[n..]) == multiset(s[n..]) + multiset{x}
  {
    assert (s + [x])[n..] == s[n..] + [x];
  }

  /** At most 64 descriptors are waiting in either ring. */
  lemma FewWaiting(t: Rx)
    requires Inv(t)
    ensures |t.supplied| - t.fetched + |t.received| - t.taken + |InHand(t)| <= BUFFERS
  {
    OnceEachSize(Places(t), BUFFERS);
    assert |Places(t)| == |multiset(t.supplied[t.fetched..])| + |multiset(t.held)|
                          + |multiset(t.receivedIn[t.taken..])| + |InHand(t)|;
  }

  /** A buffer the controller holds is in no other place, and a supplied one is not held. */
  lemma OnePlace(t: Rx)
    requires Inv(t)
    ensures forall n :: t.fetched <= n < |t.supplied| ==> t.supplied[n] !in t.held && t.supplied[n] < BUFFERS
    ensures forall n :: t.taken <= n < |t.received| ==> t.receivedIn[n] !in t.held
  {
    hide SuppliedOk, ReceivedOk, DeliveredOk, AtPc;
    forall n | t.fetched <= n < |t.supplied|
      ensures t.supplied[n] !in t.held && t.supplied[n] < BUFFERS
    {
      var b := t.supplied[n];
      assert t.supplied[t.fetched..][n - t.fetched] == b;
      assert b in multiset(t.supplied[t.fetched..]) && b in Places(t);
      assert Places(t)[b] <= 1;
    }
    forall n | t.taken <= n < |t.received|
      ensures t.receivedIn[n] !in t.held
    {
      var b := t.receivedIn[n];
      assert t.receivedIn[t.taken..][n - t.taken] == b;
      assert b in multiset(t.receivedIn[t.taken..]) && b in Places(t);
      assert Places(t)[b] <= 1;
    }
  }

  // ----- every step keeps the invariant

  lemma {:induction false} InOrder(n: nat)
    ensures OnceEach(multiset(seq(n, i => i)), n)
  {
    if n > 0 {
      InOrder(n - 1);
      assert seq(n, i => i) == seq(n - 1, i => i) + [n - 1];
    }
  }

  lemma InitInv(memory: seq<seq<byte>>, retSize: nat)
    requires |memory| == BUFFERS && (forall b :: 0 <= b < BUFFERS ==> |memory[b]| == BUF_SIZE)
    requires retSize == 512 || retSize == 1024
    ensures Inv(Init(memory, retSize))
  {
    InOrder(BUFFERS);
    var t := Init(memory, retSize);
    assert t.supplied[0..] == seq(BUFFERS, i => i);
    assert Places(t) == multiset(seq(BUFFERS, i => i));
  }

  lemma Bounds(t: Rx)
    requires Inv(t)
    ensures t.fetched <= |t.supplied| && t.taken <= |t.received|
    ensures t.prodReg == |t.supplied| % PROD_RING && t.prodCons == t.fetched % PROD_RING
    ensures t.pc.Advancing? ==> t.taken < |t.received|
    ensures t.pc.Publishing? ==> t.taken > 0 && t.prodRing[t.pc.prod].buffer == Some(t.receivedIn[t.taken - 1])
  {
  }

  lemma CallKeepsInv(t: Rx, limit: nat)
    requires Inv(t) && Enabled(t, Call(limit))
    ensures Inv(CallStep(t, limit))
  {
    hide OnceEach, Deliver, SuppliedOk, DeliveredOk, ReceivedOk, Places;
    var t1 := CallStep(t, limit);
    PlacesStay(t, t1);
    SuppliedStays(t, t1);
    DeliveredStays(t, t1);
    ReceivedStays(t, t1);
  }

  lemma PlacesStay(t: Rx, t1: Rx)
    requires Shaped(t) && Shaped(t1) && Counted(t) && Counted(t1) && !t.pc.Publishing? && !t1.pc.Publishing?
    requires (t1.supplied, t1.fetched, t1.held) == (t.supplied, t.fetched, t.held)
    requires (t1.received, t1.receivedIn, t1.taken) == (t.received, t.receivedIn, t.taken)
    ensures Places(t1) == Places(t)
  {
  }

  lemma ReceivedStays(t: Rx, t1: Rx)
    requires Shaped(t) && Shaped(t1) && ReceivedOk(t) && t1.retSize == t.retSize
    requires (t1.retRing, t1.memory) == (t.retRing, t.memory)
    requires (t1.received, t1.receivedIn) == (t.received, t.receivedIn) && t1.taken >= t.taken
    ensures ReceivedOk(t1)
  {
    forall n | t1.taken <= n < |t1.received| ensures Holds(t1, n) { assert Holds(t, n); }
  }

  lemma SuppliedStays(t: Rx, t1: Rx)
    requires Shaped(t) && Shaped(t1) && SuppliedOk(t)
    requires t1.prodRing == t.prodRing && t1.supplied == t.supplied && t1.fetched == t.fetched
    ensures SuppliedOk(t1)
  {
  }

  lemma DeliveredStays(t: Rx, t1: Rx)
    requires Shaped(t) && Shaped(t1) && DeliveredOk(t) && t.received <= t1.received
    requires t1.limits == t.limits && t1.delivered == t.delivered
    requires (t1.taken, t1.pc.Publishing?) == (t.taken, t.pc.Publishing?)
    ensures DeliveredOk(t1)
  {
  }

  lemma CopyKeepsInv(t: Rx)
    requires Inv(t) && Enabled(t, Copy)
    ensures Inv(CopyStep(t)) && CopyStep(t).pc.Replenishing?
  {
    assert Holds(t, t.taken);
    var t1 := CopyStep(t);
    assert t1.pc.Replenishing?;
    assert t.memory[t.receivedIn[t.taken]][..|t.received[t.taken].frame| - CHECKSUM_SIZE]
           == t.received[t.taken].frame[..|t.received[t.taken].frame| - CHECKSUM_SIZE];
    assert t1.pc.out == Deliver(t.received[t.taken], t.pc.limit);
    forall n | t1.taken <= n < |t1.received| ensures Holds(t1, n) { assert Holds(t, n); }
  }

  lemma ReplenishKeepsInv(t: Rx)
    requires Inv(t) && Enabled(t, Replenish)
    ensures Inv(ReplenishStep(t))
  {
    var t1 := ReplenishStep(t);
    FewWaiting(t);
    assert Holds(t, t.taken);
    assert Places(t1) == Places(t);
    forall n | t.fetched <= n < |t.supplied|
      ensures Announces(t1.prodRing[n % PROD_RING], n % PROD_RING, t1.supplied[n])
    {
      SameRemainder(n, |t.supplied|, PROD_RING);
    }
    forall n | t1.taken <= n < |t1.received| ensures Holds(t1, n) { assert Holds(t, n); }
  }

  lemma AdvanceCounts(t: Rx)
    requires Inv(t) && Enabled(t, Advance)
    ensures var t1 := AdvanceStep(t); Shaped(t1) && Counted(t1)
  {
    hide OnceEach, Places, SuppliedOk, ReceivedOk, DeliveredOk, Deliver, Holds;
    RemainderAdds(t.taken, 1, t.retSize);
  }

  lemma AdvanceMoves(t: Rx)
    requires Inv(t) && Enabled(t, Advance)
    ensures var t1 := AdvanceStep(t); Shaped(t1) && Counted(t1) && Places(t1) == Places(t)
  {
    hide OnceEach, Counted, ReceivedOk, DeliveredOk, Deliver, Holds, SuppliedOk;
    AdvanceCounts(t);
    Bounds(t);
    Rest(t.receivedIn, t.taken);
  }

  lemma AdvanceKeepsInv(t: Rx)
    requires Inv(t) && Enabled(t, Advance)
    ensures Inv(AdvanceStep(t))
  {
    hide OnceEach, Places, Deliver, SuppliedOk;
    var t1 := AdvanceStep(t);
    AdvanceMoves(t);
    SuppliedStays(t, t1);
    forall n | t1.taken <= n < |t1.received| ensures Holds(t1, n) { assert Holds(t, n); }
  }

  lemma PublishCounts(t: Rx)
    requires Inv(t) && Enabled(t, Publish)
    ensures var t1 := PublishStep(t); Shaped(t1) && Counted(t1)
  {
    hide OnceEach, Places, SuppliedOk, ReceivedOk, DeliveredOk, Deliver, Holds;
    RemainderAdds(|t.supplied|, 1, PROD_RING);
  }

  lemma PublishMoves(t: Rx)
    requires Inv(t) && Enabled(t, Publish)
    ensures var t1 := PublishStep(t); Shaped(t1) && Counted(t1) && Places(t1) == Places(t)
  {
    hide OnceEach, Counted, ReceivedOk, DeliveredOk, Deliver, Holds, SuppliedOk;
    PublishCounts(t);
    Bounds(t);
    Appended(t.supplied, t.fetched, t.receivedIn[t.taken - 1]);
  }

  lemma PublishKeepsInv(t: Rx)
    requires Inv(t) && Enabled(t, Publish)
    ensures Inv(PublishStep(t))
  {
    hide OnceEach, Places;
    var t1 := PublishStep(t);
    PublishMoves(t);
    forall n | t1.taken <= n < |t1.received| ensures Holds(t1, n) { assert Holds(t, n); }
  }

  lemma FetchCounts(t: Rx)
    requires Inv(t) && Enabled(t, NicFetch)
    ensures var t1 := FetchStep(t); Shaped(t1) && Counted(t1)
  {
    hide OnceEach, Places, SuppliedOk, ReceivedOk, DeliveredOk, Deliver, Holds;
    RemainderAdds(t.fetched, 1, PROD_RING);
  }

  /** The descriptor the controller fetches is that of the oldest buffer it has not fetched. */
  lemma FetchedBuffer(t: Rx)
    requires Inv(t) && Enabled(t, NicFetch)
    ensures t.fetched < |t.supplied| && Announces(t.prodRing[t.prodCons], t.prodCons, t.supplied[t.fetched])
    ensures t.supplied[t.fetched] !in t.held
  {
    hide ReceivedOk, DeliveredOk, Deliver, Holds;
    FetchCounts(t);
    Bounds(t);
    OnePlace(t);
    assert Announces(t.prodRing[t.fetched % PROD_RING], t.fetched % PROD_RING, t.supplied[t.fetched]);
  }

  lemma FetchMoves(t: Rx)
    requires Inv(t) && Enabled(t, NicFetch)
    ensures var t1 := FetchStep(t); Shaped(t1) && Counted(t1) && Places(t1) == Places(t)
  {
    hide OnceEach, Counted, SuppliedOk, ReceivedOk, DeliveredOk, Deliver, Holds, Announces, RoomOk;
    FetchCounts(t);
    FetchedBuffer(t);
    Bounds(t);
    Rest(t.supplied, t.fetched);
    Added(t.held, t.supplied[t.fetched]);
    assert FetchStep(t).held == t.held + {t.supplied[t.fetched]} by { BufferOf(t); }
  }

  lemma BufferOf(t: Rx)
    requires Inv(t) && Enabled(t, NicFetch)
    ensures t.fetched < |t.supplied| && t.prodRing[t.prodCons].buffer == Some(t.supplied[t.fetched])
  {
    hide OnceEach, Counted, SuppliedOk, ReceivedOk, DeliveredOk, Deliver, Holds, RoomOk;
    FetchedBuffer(t);
  }

  lemma Added<T>(s: set<T>, x: T)
    requires x !in s
    ensures multiset(s + {x}) == multiset(s) + multiset{x}
  {
  }

  lemma FetchKeepsInv(t: Rx)
    requires Inv(t) && Enabled(t, NicFetch)
    ensures Inv(FetchStep(t))
  {
    hide OnceEach, Places, Deliver, DeliveredOk;
    var t1 := FetchStep(t);
    FetchMoves(t);
    DeliveredStays(t, t1);
    forall n | t1.taken <= n < |t1.received| ensures Holds(t1, n) { assert Holds(t, n); }
  }

  lemma ReceiveCounts(t: Rx, b: nat, r: Reception)
    requires Inv(t) && Enabled(t, NicReceive(b, r))
    ensures var t1 := ReceiveStep(t, b, r); Shaped(t1) && Counted(t1)
  {
    hide OnceEach, Places, SuppliedOk, ReceivedOk, DeliveredOk, Deliver, Holds;
    RemainderAdds(|t.received|, 1, t.retSize);
  }

  lemma ReceiveMoves(t: Rx, b: nat, r: Reception)
    requires Inv(t) && Enabled(t, NicReceive(b, r))
    ensures var t1 := ReceiveStep(t, b, r); Shaped(t1) && Counted(t1) && Places(t1) == Places(t)
  {
    hide OnceEach, Counted, ReceivedOk, DeliveredOk, Deliver, Holds, SuppliedOk;
    ReceiveCounts(t, b, r);
    Bounds(t);
    Appended(t.receivedIn, t.taken, b);
    Removed(t.held, b);
  }

  lemma Removed<T>(s: set<T>, x: T)
    requires x in s
    ensures multiset(s) == multiset(s - {x}) + multiset{x}
  {
  }

  lemma ReceiveHolds(t: Rx, b: nat, r: Reception)
    requires Inv(t) && Enabled(t, NicReceive(b, r))
    ensures Shaped(ReceiveStep(t, b, r)) && ReceivedOk(ReceiveStep(t, b, r))
  {
    hide OnceEach, Places, SuppliedOk, DeliveredOk, AtPc;
    var t1 := ReceiveStep(t, b, r);
    OnePlace(t);
    FewWaiting(t);
    forall n | t1.taken <= n < |t1.received|
      ensures Holds(t1, n)
    {
      if n < |t.received| {
        assert Holds(t, n);
        SameRemainder(n, |t.received|, t.retSize);
      } else {
        assert t1.memory[b][..|r.frame|] == r.frame;
      }
    }
  }

  lemma ReceiveKeepsInv(t: Rx, b: nat, r: Reception)
    requires Inv(t) && Enabled(t, NicReceive(b, r))
    ensures Inv(ReceiveStep(t, b, r))
  {
    hide OnceEach, Places, SuppliedOk, DeliveredOk, Holds, Deliver;
    var t1 := ReceiveStep(t, b, r);
    ReceiveMoves(t, b, r);
    ReceiveHolds(t, b, r);
    SuppliedStays(t, t1);
    DeliveredStays(t, t1);
  }

  lemma StepKeepsInv(t: Rx, e: Event)
    requires Inv(t) && Enabled(t, e)
    ensures Inv(Step(t, e))
  {
    hide Inv, CallStep, CopyStep, ReplenishStep, AdvanceStep, PublishStep, FetchStep, ReceiveStep;
    match e
    case Call(limit) => CallKeepsInv(t, limit);
    case Copy => CopyKeepsInv(t);
    case Replenish => ReplenishKeepsInv(t);
    case Advance => AdvanceKeepsInv(t);
    case Publish => PublishKeepsInv(t);
    case NicFetch => FetchKeepsInv(t);
    case NicReceive(b, r) => ReceiveKeepsInv(t, b, r);
  }

  lemma Facts(t: Rx)
    requires Inv(t)
    ensures Shaped(t) && Counted(t)
    ensures t.pc.Copying? || t.pc.Replenishing? || t.pc.Advancing? ==> t.pc.prod == t.prodReg && t.pc.cons == t.retReg
    ensures t.pc.Publishing? ==> t.pc.prod == t.prodReg
    ensures |t.received| - t.taken <= BUFFERS
  {
    FewWaiting(t);
  }

  lemma RingIsEmpty(t: Rx)
    requires Inv(t)
    ensures t.retProd == t.retReg <==> |t.received| == t.taken
  {
    hide OnceEach, SuppliedOk, ReceivedOk, DeliveredOk, AtPc;
    FewWaiting(t);
    SameRemainder(t.taken, |t.received|, t.retSize);
  }

  lemma CallIsEnabled(t: Rx, limit: nat)
    requires Inv(t) && t.pc.Idle?
    ensures Enabled(t, Call(limit)) && |t.received| >= t.taken == |t.delivered| == |t.limits|
  {
    hide OnceEach, SuppliedOk, ReceivedOk;
  }

  lemma LastDelivered(t: Rx)
    requires Inv(t) && t.pc.Idle? && t.taken > 0
    ensures |t.delivered| == |t.limits| == t.taken <= |t.received|
    ensures |t.received[t.taken - 1].frame| >= CHECKSUM_SIZE
    ensures t.delivered[t.taken - 1] == Deliver(t.received[t.taken - 1], t.limits[t.taken - 1])
  {
  }

  // ----- every interleaving

  /** The state behind `events`, None if one of them cannot happen. */
  function Run(t: Rx, events: seq<Event>): Option<Rx>
    decreases |events|
  {
    if events == [] then Some(t)
    else if !Enabled(t, events[0]) then None
    else Run(Step(t, events[0]), events[1..])
  }

  lemma {:induction false} RunKeepsInv(t: Rx, events: seq<Event>)
    requires Inv(t)
    ensures Run(t, events).Some? ==> Inv(Run(t, events).value)
    decreases |events|
  {
    hide Inv, Step, Enabled;
    if events != [] && Enabled(t, events[0]) {
      StepKeepsInv(t, events[0]);
      RunKeepsInv(Step(t, events[0]), events[1..]);
    }
  }

  lemma HeldHasRoom(t: Rx, b: nat, r: Reception)
    requires Inv(t) && b in t.held && b in t.room && CHECKSUM_SIZE <= |r.frame| <= t.room[b]
    ensures Enabled(t, NicReceive(b, r))
  {
  }

  /** The driver never meets a null address, neither side waits for a descriptor without a buffer, and every
      buffer in the controller takes every frame that fits it. */
  lemma NobodyIsStuck(t: Rx)
    requires Inv(t)
    ensures t.pc.Copying? ==> Enabled(t, Copy) && CopyStep(t).pc.Replenishing?
    ensures t.pc.Publishing? ==> Enabled(t, Publish)
    ensures t.prodCons != t.prodReg ==> Enabled(t, NicFetch)
    ensures forall b, r: Reception :: b in t.held && CHECKSUM_SIZE <= |r.frame| <= BUF_SIZE ==>
                                        Enabled(t, NicReceive(b, r))
  {
    hide OnceEach;
    if t.pc.Copying? {
      assert Holds(t, t.taken);
    }
    if t.prodCons != t.prodReg {
      OnePlace(t);
      assert Announces(t.prodRing[t.fetched % PROD_RING], t.fetched % PROD_RING, t.supplied[t.fetched]);
    }
  }

  /** In every interleaving of driver calls and controller steps: each of the 64 buffers is in exactly one
      place (producer ring, controller, return ring or the driver's hand), also when frames are discarded;
      no descriptor is overwritten before the other side has read it; every supplied descriptor announces its
      own slot and a full buffer, so that the controller can receive every frame into every buffer it holds;
      and the n-th completed call hands up the n-th reception, or nothing if that one was erroneous or too
      long. */
  lemma BuffersAreConserved(memory: seq<seq<byte>>, retSize: nat, events: seq<Event>)
    requires |memory| == BUFFERS && (forall b :: 0 <= b < BUFFERS ==> |memory[b]| == BUF_SIZE)
    requires retSize == 512 || retSize == 1024
    ensures match Run(Init(memory, retSize), events)
            case None => true
            case Some(t) =>
              && Shaped(t) && Counted(t) && OnceEach(Places(t), BUFFERS)
              && |t.supplied| - t.fetched <= BUFFERS && |t.received| - t.taken <= BUFFERS
              && |t.delivered| == |t.limits| <= |t.received|
              && (forall n :: 0 <= n < |t.delivered| ==>
                    var frame := t.received[n].frame;
                    |frame| >= 4
                    && t.delivered[n] ==
                       if t.received[n].bad || |frame| - 4 > t.limits[n] then [] else frame[..|frame| - 4])
              && (forall n :: t.fetched <= n < |t.supplied| ==>
                    Announces(t.prodRing[n % PROD_RING], n % PROD_RING, t.supplied[n]))
              && (forall b, r: Reception :: b in t.held && CHECKSUM_SIZE <= |r.frame| <= BUF_SIZE ==>
                                   Enabled(t, NicReceive(b, r)))
              && (t.pc.Copying? ==> Enabled(t, Copy) && CopyStep(t).pc.Replenishing?)
              && (t.pc.Publishing? ==> Enabled(t, Publish))
              && (t.prodCons != t.prodReg ==> Enabled(t, NicFetch))
  {
    hide OnceEach, Places, ReceivedOk, AtPc, Enabled, Announces;
    InitInv(memory, retSize);
    RunKeepsInv(Init(memory, retSize), events);
    var r := Run(Init(memory, retSize), events);
    if r.Some? {
      FewWaiting(r.value);
      NobodyIsStuck(r.value);
    }
  }

  // ----- the driver in its own form

  /** The receive rings and buffers, and the index registers shared with the controller. */
  class Driver {
    const prodRing: array<Bd>
    const retRing: array<Bd>
    const retSize: nat
    const memory: array<seq<byte>>
    var prodReg: nat
    var prodCons: nat
    var retProd: nat
    var retReg: nat
    var held: set<nat>
    var room: map<nat, nat>
    ghost var pc: Pc
    ghost var supplied: seq<nat>
    ghost var fetched: nat
    ghost var received: seq<Reception>
    ghost var receivedIn: seq<nat>
    ghost var taken: nat
    ghost var limits: seq<nat>
    ghost var delivered: seq<seq<byte>>

    ghost function State(): Rx
      reads this, prodRing, retRing, memory
    {
      Rx(prodRing[..], retRing[..], retSize, memory[..], prodReg, prodCons, retProd, retReg, held, room, pc,
         supplied, fetched, received, receivedIn, taken, limits, delivered)
    }

    ghost predicate Valid()
      reads this, prodRing, retRing, memory
    {
      prodRing != retRing && Inv(State())
    }

    /** bcm_init_rxprod_ring and bcm_init_rxret_ring, and the write of the initial producer index. */
    constructor (memory: array<seq<byte>>, twice: bool)
      requires memory.Length == BUFFERS && forall b :: 0 <= b < BUFFERS ==> |memory[b]| == BUF_SIZE
      ensures Valid() && this.memory == memory && fresh(prodRing) && fresh(retRing)
      ensures State() == Init(memory[..], if twice then 1024 else 512)
    {
      this.prodRing := new Bd[PROD_RING](_ => Bd(None, 0, 0, false));
      this.retRing := new Bd[1024](_ => Bd(None, 0, 0, false));
      this.memory := memory;
      retSize := if twice then 1024 else 512;
      prodReg, prodCons, retProd, retReg := BUFFERS, 0, 0, 0;
      held, room, pc, fetched, received, receivedIn, taken := {}, map[], Idle, 0, [], [], 0;
      limits, delivered, supplied := [], [], seq(BUFFERS, i => i);
      new;
      hide Inv;
      var i := 0;
      while i < BUFFERS
        modifies prodRing
        invariant 0 <= i <= BUFFERS
        invariant forall k :: 0 <= k < PROD_RING ==>
                                prodRing[k] == if k < i then Bd(Some(k), k, BUF_SIZE, false) else Bd(None, 0, 0, false)
      {
        prodRing[i] := Bd(Some(i), i, BUF_SIZE, false);
        i := i + 1;
      }
      ghost var t := Init(memory[..], retSize);
      assert prodRing[..] == t.prodRing && retRing[..] == t.retRing;
      InitInv(memory[..], retSize);
    }

    /** The controller takes the next buffer of the producer ring. */
    method NicFetches()
      requires Valid() && prodCons != prodReg
      modifies this`prodCons, this`fetched, this`held, this`room
      ensures Valid()
    {
      hide Inv, OnceEach, Counted;
      ghost var before := State();
      NobodyIsStuck(before);
      Facts(before);
      var bd := prodRing[prodCons];
      held, room := held + {bd.buffer.value}, room[bd.buffer.value := bd.length];
      prodCons := (prodCons + 1) % PROD_RING;
      fetched := fetched + 1;
      assert State() == FetchStep(before);
      FetchKeepsInv(before);
    }

    /** The frame and its descriptor. */
    method StoreFrame(b: nat, r: Reception)
      requires prodRing != retRing && b < memory.Length && |r.frame| <= |memory[b]| && retProd < retRing.Length
      modifies memory, retRing
      ensures memory[..] == old(memory[..])[b := Patch(old(memory[b]), 0, r.frame)]
      ensures retRing[..] == old(retRing[..])[retProd := Bd(Some(b), 0, |r.frame|, r.bad)]
    {
      hide Patch;
      memory[b] := Patch(memory[b], 0, r.frame);
      retRing[retProd] := Bd(Some(b), 0, |r.frame|, r.bad);
    }

    /** The controller receives a frame into a buffer it holds. */
    method NicReceives(b: nat, r: Reception)
      requires Valid() && b in held && b in room && CHECKSUM_SIZE <= |r.frame| <= room[b]
      modifies this`held, this`retProd, this`received, this`receivedIn, memory, retRing
      ensures Valid() && received == old(received) + [r]
    {
      hide Inv, OnceEach, Counted, Patch;
      ghost var before := State();
      HeldHasRoom(before, b, r);
      Facts(before);
      hide Shaped;
      StoreFrame(b, r);
      retProd := (retProd + 1) % retSize;
      held := held - {b};
      received, receivedIn := received + [r], receivedIn + [b];
      assert State() == ReceiveStep(before, b, r);
      ReceiveKeepsInv(before, b, r);
    }

    /** Interference: while the driver works, the controller takes any number of its steps. */
    method NicRuns()
      requires Valid()
      modifies this`prodCons, this`fetched, this`held, this`room, this`retProd, this`received, this`receivedIn
      modifies memory, retRing
      ensures Valid() && old(received) <= received
    {
      hide Inv;
      var steps: nat := *;
      while steps > 0
        invariant Valid() && old(received) <= received
      {
        var fetch: bool, r: Reception := *, *;
        if fetch && prodCons != prodReg {
          NicFetches();
        } else if held != {} {
          var b :| b in held;
          if b in room && CHECKSUM_SIZE <= |r.frame| <= room[b] {
            NicReceives(b, r);
          }
        }
        steps := steps - 1;
      }
    }

    /** The middle of bcm_receive: the copy to the caller, or the decision to discard. */
    method CopyOut(limit: nat, cons: nat, prod: nat) returns (out: seq<byte>)
      requires Valid() && pc == Copying(prod, cons, limit)
      modifies this`pc, this`prodCons, this`fetched, this`held, this`room, this`retProd, this`received, this`receivedIn
      modifies memory, retRing
      ensures Valid() && pc == Replenishing(prod, cons, limit, out) && old(received) <= received
    {
      hide Inv, OnceEach, Counted;
      ghost var before := State();
      NobodyIsStuck(before);
      Facts(before);
      var bd := retRing[cons];
      var length := 0;
      if !bd.bad {
        length := bd.length - CHECKSUM_SIZE;
        if length > limit {
          length := 0;
        }
      }
      out := [];
      if length != 0 {
        out := memory[bd.buffer.value][..length];
      }
      pc := Replenishing(prod, cons, limit, out);
      assert State() == CopyStep(before);
      CopyKeepsInv(before);
      NicRuns();
    }

    /** The descriptor goes back to the producer ring. */
    method PutBack(limit: nat, cons: nat, prod: nat, ghost out: seq<byte>)
      requires Valid() && pc == Replenishing(prod, cons, limit, out)
      modifies this`pc, prodRing
      ensures Valid() && pc == Advancing(prod, cons, limit, out)
    {
      hide Inv, OnceEach, Counted;
      ghost var before := State();
      Facts(before);
      prodRing[prod] := retRing[cons].(index := prod, length := BUF_SIZE);
      pc := Advancing(prod, cons, limit, out);
      assert State() == ReplenishStep(before);
      ReplenishKeepsInv(before);
    }

    /** The consumer index of the return ring is written. */
    method WriteConsumer(limit: nat, cons: nat, ghost prod: nat, ghost out: seq<byte>)
      requires Valid() && pc == Advancing(prod, cons, limit, out)
      modifies this`pc, this`retReg, this`taken
      ensures Valid() && pc == Publishing(prod, limit, out) && taken == old(taken) + 1
    {
      hide Inv, OnceEach, Counted;
      ghost var before := State();
      Facts(before);
      retReg := (cons + 1) % retSize;
      taken := taken + 1;
      pc := Publishing(prod, limit, out);
      assert State() == AdvanceStep(before);
      AdvanceKeepsInv(before);
    }

    /** The producer index of the producer ring is written. */
    method WriteProducer(ghost limit: nat, prod: nat, ghost out: seq<byte>)
      requires Valid() && pc == Publishing(prod, limit, out)
      modifies this`pc, this`prodReg, this`supplied, this`limits, this`delivered
      ensures Valid() && pc.Idle?
      ensures limits == old(limits) + [limit] && delivered == old(delivered) + [out]
    {
      hide Inv, OnceEach, Counted;
      ghost var before := State();
      NobodyIsStuck(before);
      Facts(before);
      prodReg := (prod + 1) % PROD_RING;
      pc := Idle;
      supplied := supplied + [prodRing[prod].buffer.value];
      limits, delivered := limits + [limit], delivered + [out];
      assert State() == PublishStep(before);
      PublishKeepsInv(before);
    }

    /** bcm_receive. It reports nothing exactly if the return ring was empty on entry; otherwise it hands
        up the oldest reception not taken yet, or nothing of it. The controller may step at any point. */
    method Receive(limit: nat) returns (out: seq<byte>)
      requires Valid() && pc.Idle?
      modifies this, memory, retRing, prodRing
      ensures Valid() && pc.Idle? && old(received) <= received
      ensures if |old(received)| == old(taken) then out == [] && taken == old(taken) && delivered == old(delivered)
              else
                && taken == old(taken) + 1 && limits == old(limits) + [limit] && delivered == old(delivered) + [out]
                && |old(received)[old(taken)].frame| >= CHECKSUM_SIZE
                && out == Deliver(old(received)[old(taken)], limit)
    {
      hide Inv, Shaped, OnceEach, Counted, Deliver, CopyStep, Enabled;
      ghost var before := State();
      var prod, cons := prodReg, retReg;
      RingIsEmpty(before);
      CallIsEnabled(before, limit);
      CallKeepsInv(before, limit);
      if retProd == retReg {
        return [];
      }
      pc := Copying(prod, cons, limit);
      assert State() == CallStep(before, limit);
      out := Complete(limit, cons, prod);
      LastDelivered(State());
      assert old(received)[old(taken)] == received[old(taken)];
    }

    /** The part of bcm_receive behind the test for an empty ring. */
    method Complete(limit: nat, cons: nat, prod: nat) returns (out: seq<byte>)
      requires Valid() && pc == Copying(prod, cons, limit)
      modifies this, memory, retRing, prodRing
      ensures Valid() && pc.Idle? && old(received) <= received && taken == old(taken) + 1
      ensures limits == old(limits) + [limit] && delivered == old(delivered) + [out]
    {
      hide *;
      NicRuns();
      out := CopyOut(limit, cons, prod);
      PutBack(limit, cons, prod, out);
      NicRuns();
      WriteConsumer(limit, cons, prod, out);
      NicRuns();
      WriteProducer(limit, prod, out);
    }
  }
}
