/** The transmit ring of lib/libbcm/bcm57xx.c: 16 buffers circulate through a ring of 512 descriptors
    that the driver and the network controller work on at the same time. */
module BcmTx {
  import opened Arith
  import opened Bytes

  const RING := 512
  const BUFFERS := 16
  const BUF_SIZE := 1536
  /** "last packet" and "coalesce now". */
  const TX_FLAGS := 0x84

  /** A transmit descriptor: the buffer its host address points to, and the length/flags word. */
  datatype Bd = Bd(buffer: Option<nat>, lenflags: nat)

  /** Where the driver is inside bcm_xmit; `cons` and `prod` are the registers it read on entry. */
  datatype Pc =
    | Idle
    | Recycling(cons: nat, prod: nat, frame: seq<byte>)
    | Filling(prod: nat, frame: seq<byte>)
    | Publishing(prod: nat, frame: seq<byte>)

  /** The ring, the buffers, the driver's indices, the two index registers; and as histories the number
      of recycled descriptors, the frames sent on the wire and the frames submitted. */
  datatype Tx = Tx(
    ring: seq<Bd>, memory: seq<seq<byte>>, start: nat, stop: nat, bufAvail: int,
    prodReg: nat, consReg: nat, pc: Pc,
    recycled: nat, wire: seq<seq<byte>>, submitted: seq<seq<byte>>)

  predicate Shaped(t: Tx) {
    && |t.ring| == RING && |t.memory| == BUFFERS && (forall b :: 0 <= b < BUFFERS ==> |t.memory[b]| == BUF_SIZE)
    && t.start < RING && t.stop < RING && t.prodReg < RING && t.consReg < RING
    && (t.pc.Recycling? ==> t.pc.cons < RING && t.pc.prod < RING && |t.pc.frame| <= BUF_SIZE)
    && (t.pc.Filling? || t.pc.Publishing? ==> t.pc.prod < RING && |t.pc.frame| <= BUF_SIZE)
    && (forall i :: 0 <= i < RING && t.ring[i].buffer.Some? ==> t.ring[i].buffer.value < BUFFERS)
  }

  /** The state behind bcm_init_tx_ring, with whatever was in the buffers before. */
  function Init(memory: seq<seq<byte>>): Tx {
    Tx(seq(RING, i => if 0 <= i < BUFFERS then Bd(Some(i), TX_FLAGS) else Bd(None, 0)), memory,
       0, BUFFERS, BUFFERS, 0, 0, Idle, 0, [], [])
  }

  // ----- the steps of the driver and of the controller

  datatype Event = Call(frame: seq<byte>) | RecycleOne | EndRecycling | Fill | Publish | NicSend

  predicate Enabled(t: Tx, e: Event) {
    Shaped(t) &&
    match e
    case Call(frame) => t.pc.Idle? && |frame| <= BUF_SIZE
    case RecycleOne => t.pc.Recycling? && t.start != t.pc.cons
    case EndRecycling => t.pc.Recycling? && t.start == t.pc.cons
    case Fill => t.pc.Filling? && t.ring[t.pc.prod].buffer.Some?
    case Publish => t.pc.Publishing?
    case NicSend =>
      && t.consReg != t.prodReg && t.ring[t.consReg].buffer.Some?
      && t.ring[t.consReg].lenflags / 0x1_0000 <= BUF_SIZE
  }

  /** bcm_xmit reads the two index registers. */
  function CallStep(t: Tx, frame: seq<byte>): Tx {
    t.(pc := Recycling(t.consReg, t.prodReg, frame))
  }

  /** One turn of the loop that makes consumed descriptors available again. */
  function RecycleStep(t: Tx): Tx
    requires Shaped(t)
  {
    t.(ring := t.ring[t.stop := t.ring[t.start]],
       stop := (t.stop + 1) % RING, start := (t.start + 1) % RING,
       bufAvail := t.bufAvail + 1, recycled := t.recycled + 1)
  }

  /** The test for an available buffer; without one bcm_xmit returns 0. */
  function CheckStep(t: Tx): Tx
    requires t.pc.Recycling?
  {
    t.(pc := if t.bufAvail == 0 then Idle else Filling(t.pc.prod, t.pc.frame))
  }

  /** The descriptor gets its length, its buffer the frame. */
  function FillStep(t: Tx): Tx
    requires Enabled(t, Fill)
  {
    var bd := t.ring[t.pc.prod];
    t.(ring := t.ring[t.pc.prod := bd.(lenflags := TX_FLAGS + |t.pc.frame| * 0x1_0000)],
       memory := t.memory[bd.buffer.value := Patch(t.memory[bd.buffer.value], 0, t.pc.frame)],
       pc := Publishing(t.pc.prod, t.pc.frame))
  }

  /** The new producer index goes to the controller. */
  function PublishStep(t: Tx): Tx
    requires t.pc.Publishing?
  {
    t.(prodReg := (t.pc.prod + 1) % RING, bufAvail := t.bufAvail - 1, pc := Idle,
       submitted := t.submitted + [t.pc.frame])
  }

  /** The controller sends the frame of its next descriptor and moves its consumer index on. */
  function NicStep(t: Tx): Tx
    requires Enabled(t, NicSend)
  {
    var bd := t.ring[t.consReg];
    t.(wire := t.wire + [t.memory[bd.buffer.value][..bd.lenflags / 0x1_0000]],
       consReg := (t.consReg + 1) % RING)
  }

  function Step(t: Tx, e: Event): Tx
    requires Enabled(t, e)
  {
    match e
    case Call(frame) => CallStep(t, frame)
    case RecycleOne => RecycleStep(t)
    case EndRecycling => CheckStep(t)
    case Fill => FillStep(t)
    case Publish => PublishStep(t)
    case NicSend => NicStep(t)
  }

  // ----- the invariant

  /** The indices count the descriptors recycled, the frames sent and the frames submitted. */
  predicate Counted(t: Tx) {
    && t.recycled <= |t.wire| <= |t.submitted| <= t.recycled + BUFFERS
    && t.start == t.recycled % RING && t.stop == (t.recycled + BUFFERS) % RING
    && t.consReg == |t.wire| % RING && t.prodReg == |t.submitted| % RING
    && t.bufAvail == t.recycled + BUFFERS - |t.submitted|
  }

  /** The n-th descriptor ever handed out sits in slot n mod 512 and carries buffer n mod 16. */
  predicate Windowed(t: Tx)
    requires Shaped(t)
  {
    forall n :: t.recycled <= n < t.recycled + BUFFERS ==> t.ring[n % RING].buffer == Some(n % BUFFERS)
  }

  /** The frames the controller still has to send are intact. */
  predicate Pending(t: Tx)
    requires Shaped(t)
  {
    forall n :: |t.wire| <= n < |t.submitted| ==> Holds(t, n, t.submitted[n])
  }

  predicate AtPc(t: Tx)
    requires Shaped(t)
  {
    match t.pc
    case Idle => true
    case Recycling(cons, prod, _) =>
      prod == t.prodReg && exists consumed :: t.recycled <= consumed <= |t.wire| && cons == consumed % RING
    case Filling(prod, _) => prod == t.prodReg && t.bufAvail > 0
    case Publishing(prod, frame) => prod == t.prodReg && t.bufAvail > 0 && Holds(t, |t.submitted|, frame)
  }

  predicate Inv(t: Tx) {
    Shaped(t) && Counted(t) && t.wire <= t.submitted && Windowed(t) && Pending(t) && AtPc(t)
  }

  /** Descriptor n announces `frame`, and its buffer contains it. */
  predicate Holds(t: Tx, n: nat, frame: seq<byte>)
    requires Shaped(t)
  {
    && t.ring[n % RING].lenflags == TX_FLAGS + |frame| * 0x1_0000
    && |frame| <= BUF_SIZE && t.memory[n % BUFFERS][..|frame|] == frame
  }

  lemma InitInv(memory: seq<seq<byte>>)
    requires |memory| == BUFFERS && forall b :: 0 <= b < BUFFERS ==> |memory[b]| == BUF_SIZE
    ensures Inv(Init(memory))
  {
  }

  lemma Slots(a: nat, b: nat)
    requires a <= b < a + RING
    ensures a % RING == b % RING <==> a == b
    ensures a <= b < a + BUFFERS ==> (a % BUFFERS == b % BUFFERS <==> a == b)
  {
    SameRemainder(a, b, RING);
    if b < a + BUFFERS { SameRemainder(a, b, BUFFERS); }
  }

  lemma NextSlot(a: nat)
    ensures (a % RING + 1) % RING == (a + 1) % RING
    ensures (a + BUFFERS) % BUFFERS == a % BUFFERS
  {
    RemainderAdds(a, 1, RING);
  }

  lemma Find(r: nat, b: nat) returns (i: nat)
    requires b < BUFFERS
    ensures i < BUFFERS && (r + i) % BUFFERS == b
  {
    i := (b + BUFFERS - r % BUFFERS) % BUFFERS;
    if b >= r % BUFFERS {
      assert r + i == BUFFERS * (r / BUFFERS) + b;
    } else {
      assert r + i == BUFFERS * (r / BUFFERS + 1) + b;
    }
  }

  lemma StopSlotIsUnused(r: nat)
    ensures forall n :: r <= n < r + BUFFERS ==> n % RING != (r + BUFFERS) % RING
  {
    forall n | r <= n < r + BUFFERS
      ensures n % RING != (r + BUFFERS) % RING
    {
      Slots(n, r + BUFFERS);
    }
  }

  lemma RecycleCounts(t: Tx)
    requires Inv(t) && Enabled(t, RecycleOne)
    ensures var t1 := RecycleStep(t); Shaped(t1) && Counted(t1) && AtPc(t1)
  {
    hide Windowed, Pending, Holds;
    NextSlot(t.recycled);
    NextSlot(t.recycled + BUFFERS);
    var consumed :| t.recycled <= consumed <= |t.wire| && t.pc.cons == consumed % RING;
    assert t.recycled + 1 <= consumed;
  }

  lemma RecycleKeepsInv(t: Tx)
    requires Inv(t) && Enabled(t, RecycleOne)
    ensures Inv(RecycleStep(t))
  {
    hide AtPc;
    RecycleCounts(t);
    var t1 := RecycleStep(t);
    NextSlot(t.recycled);
    StopSlotIsUnused(t.recycled);
    forall n | t1.recycled <= n < t1.recycled + BUFFERS
      ensures t1.ring[n % RING].buffer == Some(n % BUFFERS)
    {
      if n == t.recycled + BUFFERS {
        assert t.ring[t.recycled % RING].buffer == Some(t.recycled % BUFFERS);
      }
    }
    forall n | |t.wire| <= n < |t.submitted|
      ensures Holds(t1, n, t1.submitted[n])
    {
      assert Holds(t, n, t.submitted[n]);
    }
  }

  lemma FillKeepsInv(t: Tx)
    requires Inv(t) && Enabled(t, Fill)
    ensures Inv(FillStep(t))
  {
    var t1 := FillStep(t);
    var p := |t.submitted|;
    assert t.ring[p % RING].buffer == Some(p % BUFFERS);
    forall n | |t.wire| <= n < p
      ensures Holds(t1, n, t1.submitted[n])
    {
      assert Holds(t, n, t.submitted[n]);
      Slots(n, p);
    }
    assert t1.memory[p % BUFFERS][..|t.pc.frame|] == t.pc.frame;
    assert Holds(t1, p, t.pc.frame);
  }

  lemma PublishKeepsInv(t: Tx)
    requires Inv(t) && Enabled(t, Publish)
    ensures Inv(PublishStep(t))
  {
    var t1 := PublishStep(t);
    NextSlot(|t.submitted|);
    forall n | |t1.wire| <= n < |t1.submitted|
      ensures Holds(t1, n, t1.submitted[n])
    {
      if n < |t.submitted| {
        assert Holds(t, n, t.submitted[n]);
      }
    }
  }

  lemma NicKeepsInv(t: Tx)
    requires Inv(t) && Enabled(t, NicSend)
    ensures Inv(NicStep(t))
    ensures NicStep(t).wire == t.wire + [t.submitted[|t.wire|]]
  {
    var t1 := NicStep(t);
    var c := |t.wire|;
    NextSlot(c);
    assert c < |t.submitted|;
    assert Holds(t, c, t.submitted[c]);
    assert t.ring[c % RING].buffer == Some(c % BUFFERS);
    forall n | |t1.wire| <= n < |t1.submitted|
      ensures Holds(t1, n, t1.submitted[n])
    {
      assert Holds(t, n, t.submitted[n]);
    }
    if t.pc.Recycling? {
      var consumed :| t.recycled <= consumed <= |t.wire| && t.pc.cons == consumed % RING;
      assert consumed <= |t1.wire|;
    }
  }

  lemma StepKeepsInv(t: Tx, e: Event)
    requires Inv(t) && Enabled(t, e)
    ensures Inv(Step(t, e))
  {
    match e
    case Call(_) =>
      hide Windowed, Pending, Holds;
      assert t.recycled <= |t.wire| <= |t.wire| && t.consReg == |t.wire| % RING;
    case RecycleOne => RecycleKeepsInv(t);
    case EndRecycling =>
    case Fill => FillKeepsInv(t);
    case Publish => PublishKeepsInv(t);
    case NicSend => NicKeepsInv(t);
  }

  lemma Facts(t: Tx)
    requires Inv(t)
    ensures Shaped(t) && Counted(t) && (t.pc.Recycling? || t.pc.Filling? || t.pc.Publishing? ==> t.pc.prod == t.prodReg)
  {
  }

  // ----- every interleaving

  /** The state behind `events`, None if one of them cannot happen. */
  function Run(t: Tx, events: seq<Event>): Option<Tx>
    decreases |events|
  {
    if events == [] then Some(t)
    else if !Enabled(t, events[0]) then None
    else Run(Step(t, events[0]), events[1..])
  }

  lemma {:induction false} RunKeepsInv(t: Tx, events: seq<Event>)
    requires Inv(t)
    ensures Run(t, events).Some? ==> Inv(Run(t, events).value)
    decreases |events|
  {
    hide Inv, Step;
    if events != [] && Enabled(t, events[0]) {
      StepKeepsInv(t, events[0]);
      RunKeepsInv(Step(t, events[0]), events[1..]);
    }
  }

  /** Descriptor `i` of the cyclic window [start, stop) carries buffer `b`. */
  predicate InWindow(t: Tx, i: nat, b: nat) {
    |t.ring| == RING && i < BUFFERS && t.ring[(t.start + i) % RING].buffer == Some(b)
  }

  /** Exactly one descriptor of the window carries buffer `b`. */
  ghost predicate ExactlyOnce(t: Tx, b: nat) {
    (exists i :: InWindow(t, i, b)) && forall i, j :: InWindow(t, i, b) && InWindow(t, j, b) ==> i == j
  }

  lemma WindowBuffer(t: Tx, i: nat)
    requires Inv(t) && i < BUFFERS
    ensures |t.ring| == RING && t.ring[(t.start + i) % RING].buffer == Some((t.recycled + i) % BUFFERS)
  {
    RemainderAdds(t.recycled, i, RING);
    assert t.ring[(t.recycled + i) % RING].buffer == Some((t.recycled + i) % BUFFERS);
  }

  lemma WindowHoldsBufferOnce(t: Tx, b: nat)
    requires Inv(t) && b < BUFFERS
    ensures ExactlyOnce(t, b)
  {
    hide Inv;
    var r := t.recycled;
    var i0 := Find(r, b);
    WindowBuffer(t, i0);
    assert InWindow(t, i0, b);
    forall i, j | InWindow(t, i, b) && InWindow(t, j, b)
      ensures i == j
    {
      WindowBuffer(t, i);
      WindowBuffer(t, j);
      Slots(if i <= j then r + i else r + j, if i <= j then r + j else r + i);
    }
  }

  /** No descriptor the controller still owns carries the buffer the driver is about to fill. */
  ghost predicate FillsFreeBuffer(t: Tx)
    requires Enabled(t, Fill)
  {
    forall n :: |t.wire| <= n < |t.submitted| ==> t.ring[n % RING].buffer != t.ring[t.pc.prod].buffer
  }

  lemma FillIsSafe(t: Tx)
    requires Inv(t) && Enabled(t, Fill)
    ensures FillsFreeBuffer(t)
  {
    forall n | |t.wire| <= n < |t.submitted|
      ensures t.ring[n % RING].buffer != t.ring[t.pc.prod].buffer
    {
      Slots(n, |t.submitted|);
      assert t.ring[n % RING].buffer == Some(n % BUFFERS);
      assert t.ring[|t.submitted| % RING].buffer == Some(|t.submitted| % BUFFERS);
    }
  }

  /** The descriptor the driver fills has a buffer, and so has the one the controller sends. */
  lemma NobodyIsStuck(t: Tx)
    requires Inv(t)
    ensures t.pc.Filling? ==> Enabled(t, Fill)
    ensures t.consReg != t.prodReg ==> Enabled(t, NicSend)
  {
    var c, p := |t.wire|, |t.submitted|;
    if t.pc.Filling? {
      assert t.ring[p % RING].buffer == Some(p % BUFFERS);
    }
    if t.consReg != t.prodReg {
      assert t.ring[c % RING].buffer == Some(c % BUFFERS);
      assert Holds(t, c, t.submitted[c]);
    }
  }

  lemma Distances(t: Tx)
    requires Inv(t)
    ensures (t.stop - t.start) % RING == BUFFERS
    ensures 0 <= t.bufAvail <= BUFFERS && t.bufAvail == (t.stop - t.prodReg) % RING
  {
    hide Windowed, Pending, AtPc;
    Distance(t.recycled, t.recycled + BUFFERS);
    Distance(|t.submitted|, t.recycled + BUFFERS);
  }

  lemma Distance(a: nat, b: nat)
    requires a <= b < a + RING
    ensures (b % RING - a % RING) % RING == b - a
  {
    assert b % RING - a % RING == (b - a) + RING * (a / RING - b / RING);
  }

  /** In every interleaving of driver calls and controller steps: the window [start, stop) spans 16
      descriptors and holds each of the 16 buffers exactly once; bufAvail is the distance from the
      producer index to stop; frames leave unchanged and in submission order; and a frame is only ever
      copied into a buffer that the controller has done with. */
  lemma RingIsConserved(memory: seq<seq<byte>>, events: seq<Event>)
    requires |memory| == BUFFERS && forall b :: 0 <= b < BUFFERS ==> |memory[b]| == BUF_SIZE
    ensures match Run(Init(memory), events)
            case None => true
            case Some(t) =>
              && Shaped(t) && (t.stop - t.start) % RING == BUFFERS
              && (forall b: nat :: b < BUFFERS ==> ExactlyOnce(t, b))
              && 0 <= t.bufAvail <= BUFFERS && t.bufAvail == (t.stop - t.prodReg) % RING
              && t.wire <= t.submitted
              && (t.pc.Filling? ==> Enabled(t, Fill) && FillsFreeBuffer(t))
              && (t.consReg != t.prodReg ==> Enabled(t, NicSend))
  {
    InitInv(memory);
    RunKeepsInv(Init(memory), events);
    var r := Run(Init(memory), events);
    if r.Some? {
      var t := r.value;
      forall b: nat | b < BUFFERS
        ensures ExactlyOnce(t, b)
      {
        WindowHoldsBufferOnce(t, b);
      }
      Distances(t);
      NobodyIsStuck(t);
      if t.pc.Filling? {
        FillIsSafe(t);
      }
    }
  }

  // ----- the driver in its own form

  /** The driver's static data and the two index registers it shares with the controller. */
  class Driver {
    const ring: array<Bd>
    const memory: array<seq<byte>>
    var start: nat
    var stop: nat
    var bufAvail: int
    var prodReg: nat
    var consReg: nat
    ghost var pc: Pc
    ghost var recycled: nat
    ghost var wire: seq<seq<byte>>
    ghost var submitted: seq<seq<byte>>

    ghost function State(): Tx
      reads this, ring, memory
    {
      Tx(ring[..], memory[..], start, stop, bufAvail, prodReg, consReg, pc, recycled, wire, submitted)
    }

    ghost predicate Valid()
      reads this, ring, memory
    {
      Inv(State())
    }

    /** bcm_init_tx_ring: all descriptors cleared, the first 16 get the buffers. */
    constructor (memory: array<seq<byte>>)
      requires memory.Length == BUFFERS && forall b :: 0 <= b < BUFFERS ==> |memory[b]| == BUF_SIZE
      ensures Valid() && State() == Init(memory[..]) && this.memory == memory && fresh(ring)
    {
      this.ring := new Bd[RING](_ => Bd(None, 0));
      this.memory := memory;
      start, stop, bufAvail, prodReg, consReg := 0, BUFFERS, BUFFERS, 0, 0;
      pc, recycled, wire, submitted := Idle, 0, [], [];
      new;
      var i := 0;
      while i < BUFFERS
        modifies ring
        invariant 0 <= i <= BUFFERS
        invariant forall k :: 0 <= k < RING ==>
                                ring[k] == if k < i then Bd(Some(k), TX_FLAGS) else Bd(None, 0)
      {
        ring[i] := Bd(Some(i), TX_FLAGS);
        i := i + 1;
      }
      assert ring[..] == Init(memory[..]).ring;
      InitInv(memory[..]);
    }

    /** Interference: while the driver works, the controller takes any number of its steps. */
    method NicRuns()
      requires Valid()
      modifies this`consReg, this`wire
      ensures Valid() && old(wire) <= wire
    {
      hide Windowed, Pending, AtPc;
      var steps: nat := *;
      while steps > 0 && consReg != prodReg
        invariant Valid() && old(wire) <= wire
      {
        ghost var before := State();
        NobodyIsStuck(before);
        var bd := ring[consReg];
        wire := wire + [memory[bd.buffer.value][..bd.lenflags / 0x1_0000]];
        consReg := (consReg + 1) % RING;
        assert State() == NicStep(before);
        NicKeepsInv(before);
        steps := steps - 1;
      }
    }

    /** One turn of the loop of bcm_xmit that makes consumed descriptors available again. */
    method RecycleOne()
      requires Valid() && pc.Recycling? && start != pc.cons
      modifies this`start, this`stop, this`bufAvail, this`recycled, ring
      ensures Valid() && State() == RecycleStep(old(State()))
    {
      hide Inv, Windowed, Pending, AtPc;
      ghost var before := State();
      Facts(before);
      ring[stop] := ring[start];
      stop := (stop + 1) % RING;
      start := (start + 1) % RING;
      bufAvail := bufAvail + 1;
      recycled := recycled + 1;
      assert State() == RecycleStep(before);
      RecycleKeepsInv(before);
    }

    /** That loop, for the consumer index read on entry. */
    method Recycle(cons: nat, ghost consumed: nat)
      requires Valid() && pc.Recycling? && pc.cons == cons
      requires recycled <= consumed <= |wire| && cons == consumed % RING
      modifies this, ring
      ensures Valid() && pc == old(pc) && old(wire) <= wire && submitted == old(submitted)
      ensures recycled == consumed && start == cons && prodReg == old(prodReg)
    {
      hide Inv, Windowed, Pending, AtPc;
      Facts(State());
      while start != cons
        invariant Valid() && pc == old(pc) && old(wire) <= wire && submitted == old(submitted)
        invariant recycled <= consumed <= |wire| && prodReg == old(prodReg) && Shaped(State()) && Counted(State())
        decreases consumed - recycled
      {
        RecycleOne();
        NicRuns();
        Facts(State());
      }
      SameRemainder(recycled, consumed, RING);
    }

    /** The descriptor at `prod` gets its length, its buffer the frame. */
    method SetUp(prod: nat, frame: seq<byte>)
      requires Valid() && pc == Filling(prod, frame)
      modifies this, ring, memory
      ensures Valid() && pc == Publishing(prod, frame) && old(wire) <= wire && submitted == old(submitted)
    {
      ghost var before := State();
      NobodyIsStuck(before);
      ring[prod] := ring[prod].(lenflags := TX_FLAGS + |frame| * 0x1_0000);
      var b := ring[prod].buffer.value;
      memory[b] := Patch(memory[b], 0, frame);
      pc := Publishing(prod, frame);
      assert State() == FillStep(before);
      FillKeepsInv(before);
      NicRuns();
    }

    /** The new producer index goes to the controller. */
    method PublishFrame(prod: nat, frame: seq<byte>)
      requires Valid() && pc == Publishing(prod, frame)
      modifies this
      ensures Valid() && pc.Idle? && old(wire) <= wire && submitted == old(submitted) + [frame]
    {
      hide Inv, Windowed, Pending, AtPc;
      ghost var before := State();
      Facts(before);
      bufAvail := bufAvail - 1;
      prodReg := (prod + 1) % RING;
      pc := Idle;
      submitted := submitted + [frame];
      assert State() == PublishStep(before);
      PublishKeepsInv(before);
      NicRuns();
    }

    /** bcm_xmit. It fails, returning 0, exactly if 16 frames were waiting for the controller on entry;
        otherwise the frame is queued behind all earlier ones. The controller may step at any point. */
    method Xmit(frame: seq<byte>) returns (sent: nat)
      requires Valid() && pc.Idle? && |frame| <= BUF_SIZE
      modifies this, ring, memory
      ensures Valid() && pc.Idle? && old(wire) <= wire
      ensures if |old(submitted)| == |old(wire)| + BUFFERS then sent == 0 && submitted == old(submitted)
              else sent == |frame| && submitted == old(submitted) + [frame]
    {
      hide Inv, Windowed, Pending, AtPc;
      Facts(State());
      var cons, prod := consReg, prodReg;
      ghost var consumed := |wire|;
      StepKeepsInv(State(), Call(frame));
      pc := Recycling(cons, prod, frame);
      NicRuns();
      Recycle(cons, consumed);
      Facts(State());
      StepKeepsInv(State(), EndRecycling);
      if bufAvail == 0 {
        pc := Idle;
        return 0;
      }
      pc := Filling(prod, frame);
      SetUp(prod, frame);
      PublishFrame(prod, frame);
      return |frame|;
    }
  }
}
