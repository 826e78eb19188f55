/** The client of lib/libnet/tftp.c against a lock-step server and a network that loses, duplicates,
    delays and reorders packets in both directions. */
module TftpNetwork {
  import opened Bytes
  import opened Tftp
  import Arith

  // ----- the server

  /** Block numbers have 16 bits; behind 0xffff a server goes on with 0 or with 1. */
  datatype Wrap = ToZero | ToOne

  /** How the server answers the read request: DATA 1, an ACK of 0, or an OACK with its block size. */
  datatype Greeting = Data1 | Ack0 | Oack

  datatype Server = Server(file: seq<byte>, blocksize: nat, wrap: Wrap, greeting: Greeting)

  predicate ValidServer(s: Server) {
    1 <= s.blocksize <= 65464 && (s.greeting != Oack ==> s.blocksize == 512)
  }

  /** The last block is the first one shorter than the block size, possibly empty. */
  function Last(s: Server): nat
    requires ValidServer(s)
  {
    |s.file| / s.blocksize + 1
  }

  /** The number of file bytes in the first `n` blocks. */
  function Offset(s: Server, n: nat): nat
  {
    if n * s.blocksize <= |s.file| then n * s.blocksize else |s.file|
  }

  function Wire(w: Wrap, n: nat): uint16 {
    if n == 0 then 0 else if w == ToZero then n % 0x1_0000 else (n - 1) % 0xffff + 1
  }

  function Payload(s: Server, n: nat): seq<byte>
    requires n >= 1
    requires Offset(s, n - 1) <= Offset(s, n)
  {
    s.file[Offset(s, n - 1)..Offset(s, n)]
  }

  lemma Offsets(s: Server, n: nat)
    requires ValidServer(s) && 1 <= n <= Last(s)
    ensures Offset(s, n - 1) == (n - 1) * s.blocksize <= Offset(s, n)
    ensures if n == Last(s) then Offset(s, n) == |s.file| < Offset(s, n - 1) + s.blocksize
            else Offset(s, n) == Offset(s, n - 1) + s.blocksize
  {
    var q := |s.file| / s.blocksize;
    assert q * s.blocksize <= |s.file| < q * s.blocksize + s.blocksize;
    assert n * s.blocksize == (n - 1) * s.blocksize + s.blocksize;
    if n <= q {
      Multiples(n, q, s.blocksize);
    }
    Multiples(n - 1, q, s.blocksize);
  }

  lemma Multiples(a: nat, b: nat, c: nat)
    requires a <= b
    ensures a * c <= b * c
  {
  }

  // ----- packet ages

  const DELAY := 65534

  /** A packet about block `index` may still arrive when its receiver is at block `now`. A file of at
      most 65535 blocks needs no bound. */
  predicate Fresh(s: Server, now: nat, index: nat)
    requires ValidServer(s)
  {
    Last(s) <= 0xffff || now < index + DELAY
  }

  lemma WireIsInjective(w: Wrap, m: nat, n: nat)
    requires m <= n && (n <= 0xffff || n < m + 0xffff)
    ensures Wire(w, m) == Wire(w, n) <==> m == n
  {
    if w == ToZero {
      Arith.SameRemainder(m, n, 0x1_0000);
    } else if m > 0 {
      Arith.SameRemainder(m - 1, n - 1, 0xffff);
    }
  }

  /** The number behind a block number. */
  lemma NextWire(w: Wrap, k: nat)
    ensures Wire(w, k + 1) == if Wire(w, k) != 0xffff then Wire(w, k) + 1 else if w == ToZero then 0 else 1
  {
    if w == ToZero {
      Arith.NextRemainder(k, 0x1_0000);
    } else if k > 0 {
      Arith.NextRemainder(k - 1, 0xffff);
    }
  }

  /** With `k` blocks stored, the client takes block `n` for the next one exactly if it is. */
  lemma OnlyNextIsExpected(w: Wrap, c: Client, k: nat, n: nat)
    requires 1 <= n <= k + 1 && (k < 0xffff || k < n + DELAY)
    requires c.block == Wire(w, k) && c.hugeLoad
    ensures Expected(c, Wire(w, n)) <==> n == k + 1
    ensures Wire(w, n) == c.block <==> n == k
  {
    hide Wire;
    NextWire(w, k);
    WireIsInjective(w, n, k + 1);
    if n <= k { WireIsInjective(w, n, k); } else { WireIsInjective(w, k, n); }
    if Wire(w, k) == 0xffff { OtherWrap(w, k, n); }
  }

  /** Behind 0xffff, no block that can still arrive has the number that the other kind of server goes on with. */
  lemma OtherWrap(w: Wrap, k: nat, n: nat)
    requires 1 <= n <= k + 1 && (k < 0xffff || k < n + DELAY) && Wire(w, k) == 0xffff
    ensures Wire(w, n) != if w == ToZero then 1 else 0
  {
    if w == ToZero && k >= 0xffff {
      Arith.SameRemainder(n, k + 2, 0x1_0000);
    }
  }

  /** The number of blocks behind which block numbers repeat. */
  function Period(w: Wrap): nat { if w == ToZero then 0x1_0000 else 0xffff }

  /** With `k` blocks stored, block `n` is taken for the next one exactly if it is a whole number of periods
      older than that, or (behind block number 0xffff of a server that goes on with 0) than the one behind. */
  lemma TakenForNext(w: Wrap, c: Client, k: nat, n: nat)
    requires 1 <= n <= k + 1 && c.block == Wire(w, k) && c.hugeLoad
    ensures Expected(c, Wire(w, n)) <==>
            || (k + 1 - n) % Period(w) == 0
            || (w == ToZero && k % 0x1_0000 == 0xffff && (k + 2 - n) % 0x1_0000 == 0)
  {
    if w == ToOne && k > 0 {
      PeriodsApart(k, n - 1, 0xffff);
      NextWire(w, k);
      assert Expected(c, Wire(w, n)) <==> k % 0xffff == (n - 1) % 0xffff;
    }
  }

  lemma PeriodsApart(x: nat, y: nat, b: nat)
    requires b > 0 && y <= x
    ensures (x - y) % b == 0 <==> x % b == y % b
  {
    var p, q := x / b, y / b;
    assert x == p * b + x % b && y == q * b + y % b;
    Arith.Distribute(p - q, q, b);
    Arith.Compare(q, p, b);
    if x % b >= y % b {
      Arith.Quotient(x - y, b, p - q, x % b - y % b);
    } else {
      Arith.Distribute(p - q - 1, 1, b);
      Arith.Quotient(x - y, b, p - q - 1, x % b - y % b + b);
    }
  }

  // ----- the system

  /** An acknowledgement in the network and the block it is about. */
  datatype Ack = Ack(number: uint16, index: nat)

  /** `stored` counts the blocks the client has stored, `sending` is the block the server sends (0:
      its greeting), `acks` are the acknowledgements ever sent. Every packet the server ever sent can
      arrive at any time and any number of times, or never. */
  datatype System = System(loop: Loop, stored: nat, sending: nat, acks: set<Ack>)

  datatype Delivery = NoPacket | IcmpError(code: byte) | Hello(port: uint16) | Block(n: nat, port: uint16)
                    | Other(packet: Packet)

  datatype Event = ClientTurn(timeout: bool, delivery: Delivery) | AckArrives(ack: Ack)

  function Init(s: Server, capacity: nat): System {
    System(Loop(Start(capacity), 0, false), 0, if s.greeting == Data1 then 1 else 0, {})
  }

  /** What can happen in a network without a bound on delays. */
  predicate Possible(s: Server, y: System, e: Event)
    requires ValidServer(s)
  {
    match e
    case AckArrives(a) =>
      // the server goes on to the next block when the block it sends is acknowledged
      a in y.acks && a.number == Wire(s.wrap, y.sending) && y.sending < Last(s)
    case ClientTurn(_, d) =>
      && !y.loop.stopped
      && match d
         case NoPacket => true
         case IcmpError(_) => true
         case Hello(_) => s.greeting != Data1
         case Block(n, _) => 1 <= n <= y.sending && n <= Last(s)
         case Other(p) => p.opcode != OP_DATA && p.opcode != OP_ACK && p.opcode != OP_OACK
  }

  /** The packet is not too late. */
  predicate Timely(s: Server, y: System, e: Event)
    requires ValidServer(s)
  {
    match e
    case AckArrives(a) => Fresh(s, y.sending, a.index)
    case ClientTurn(_, d) =>
      match d
      case Hello(_) => Fresh(s, y.stored, 0)
      case Block(n, _) => Fresh(s, y.stored, n)
      case _ => true
  }

  predicate Enabled(s: Server, y: System, e: Event)
    requires ValidServer(s)
  {
    Possible(s, y, e) && Timely(s, y, e)
  }

  function ArrivalOf(s: Server, d: Delivery): Arrival
    requires d.Block? ==> d.n >= 1 && Offset(s, d.n - 1) <= Offset(s, d.n)
  {
    match d
    case NoPacket => Nothing
    case IcmpError(code) => Unreachable(code)
    case Hello(port) =>
      if s.greeting == Oack then
        var options := BLKSIZE + Decimal(s.blocksize) + NUL;
        Udp(Packet(port, OP_OACK, FromBe16(options[..2]), options[2..]))
      else Udp(Packet(port, OP_ACK, 0, []))
    case Block(n, port) => Udp(Packet(port, OP_DATA, Wire(s.wrap, n), Payload(s, n)))
    case Other(p) => Udp(p)
  }

  function Tagged(numbers: seq<uint16>, index: nat): set<Ack> {
    set x | x in numbers :: Ack(x, index)
  }

  function Next(s: Server, y: System, e: Event, retries: nat): System
    requires ValidServer(s) && Possible(s, y, e)
  {
    match e
    case AckArrives(a) => y.(sending := y.sending + 1)
    case ClientTurn(timeout, d) =>
      if d.Block? then Offsets(s, d.n); Turned(s, y, timeout, d, retries) else Turned(s, y, timeout, d, retries)
  }

  function Turned(s: Server, y: System, timeout: bool, d: Delivery, retries: nat): System
    requires d.Block? ==> d.n >= 1 && Offset(s, d.n - 1) <= Offset(s, d.n)
  {
    var a := ArrivalOf(s, d);
    var (c, acks) := Arrive(y.loop.client, a);
    var repeated := if timeout then Timeout(y.loop.client, y.loop.noPackets) else [];
    System(TakeTurn(y.loop, Turn(timeout, a), retries).0,
           if c.errno == 0 && c.block != y.loop.client.block then y.stored + 1 else y.stored,
           y.sending,
           y.acks + Tagged(repeated, y.stored) + Tagged(acks, if d.Block? then d.n else 0))
  }

  // ----- the invariant

  ghost predicate Inv(s: Server, y: System)
    requires ValidServer(s)
  {
    var c := y.loop.client;
    && y.stored <= y.sending <= Last(s) && y.sending <= y.stored + 1
    && c.stored == s.file[..Offset(s, y.stored)] && |c.stored| <= c.capacity && c.hugeLoad
    && c.errno <= 0 && (!y.loop.stopped ==> c.errno == 0 && !c.finished)
    && (c.errno == 0 ==>
          && c.block == Wire(s.wrap, y.stored)
          && (c.finished <==> y.stored == Last(s))
          && (y.loop.stopped ==> c.finished)
          && (y.sending >= 1 || y.acks != {} ==> c.blocksize == s.blocksize))
    && (forall a :: a in y.acks ==> a.index <= y.stored && a.number == Wire(s.wrap, a.index))
  }

  lemma InitInv(s: Server, capacity: nat)
    requires ValidServer(s)
    ensures Inv(s, Init(s, capacity))
  {
    assert |s.file| / s.blocksize >= 0;
    assert 0 * s.blocksize == 0;
  }

  lemma AckKeepsInv(s: Server, y: System, e: Event, retries: nat)
    requires ValidServer(s) && Inv(s, y) && Enabled(s, y, e) && e.AckArrives?
    ensures Inv(s, Next(s, y, e, retries))
  {
    hide Wire, Last;
    WireIsInjective(s.wrap, e.ack.index, y.sending);
  }

  lemma HelloSize(s: Server, d: Delivery)
    requires ValidServer(s) && d.Hello? && s.greeting == Oack
    ensures var p := ArrivalOf(s, d).packet;
            p.opcode == OP_OACK && GetBlksize(Be16(p.data) + p.payload) == s.blocksize
  {
    var options := BLKSIZE + Decimal(s.blocksize) + NUL;
    assert Be16(FromBe16(options[..2])) + options[2..] == options;
    var key := BLKSIZE;
    assert options == key[..7] + NUL + (Decimal(s.blocksize) + NUL + []);
    ReadFirst(s.blocksize, []);
  }

  /** The client part of the invariant, between an arrival and the tests at the end of the turn. */
  ghost predicate ClientInv(s: Server, c: Client, k: nat, sized: bool)
    requires ValidServer(s)
  {
    && k <= Last(s) && c.stored == s.file[..Offset(s, k)] && |c.stored| <= c.capacity && c.hugeLoad
    && c.errno <= 0 && (c.errno != 0 ==> c.finished)
    && (c.errno == 0 ==>
          && c.block == Wire(s.wrap, k)
          && (c.finished <==> k == Last(s))
          && (sized ==> c.blocksize == s.blocksize))
  }

  /** The blocks stored behind an arrival that left the client `c1`. */
  function StoredAfter(c: Client, c1: Client, k: nat): nat {
    if c1.errno == 0 && c1.block != c.block then k + 1 else k
  }

  lemma AcceptStores(s: Server, c: Client, k: nat)
    requires ValidServer(s) && k < Last(s) && ClientInv(s, c, k, true) && c.errno == 0 && !c.finished
    requires Offset(s, k) <= Offset(s, k + 1)
    ensures var (c1, acks) := Accept(c, Wire(s.wrap, k + 1), Payload(s, k + 1));
            if c1.errno == 0 then ClientInv(s, c1, k + 1, true) && acks == [Wire(s.wrap, k + 1)]
            else ClientInv(s, c1, k, true) && acks == []
  {
    hide Wire, Last;
    Offsets(s, k + 1);
    assert s.file[..Offset(s, k)] + Payload(s, k + 1) == s.file[..Offset(s, k + 1)];
  }

  /** What the client does with block `n` when it has stored `k` blocks: it stores and acknowledges the next
      one if there is room; acknowledges the last one again; and answers no older one. */
  lemma BlockArrives(s: Server, c: Client, k: nat, n: nat, port: uint16)
    requires ValidServer(s) && k < Last(s) && ClientInv(s, c, k, true) && c.errno == 0 && !c.finished
    requires 1 <= n <= k + 1 && Fresh(s, k, n) && Offset(s, n - 1) <= Offset(s, n)
    ensures var (c1, acks) := Receive(c, Packet(port, OP_DATA, Wire(s.wrap, n), Payload(s, n)));
            var k1 := StoredAfter(c, c1, k);
            && ClientInv(s, c1, k1, true) && c1.capacity == c.capacity && c1.port == Signed16(port)
            && (n == k + 1 && |c.stored| + |Payload(s, n)| <= c.capacity ==>
                  k1 == k + 1 && c1.errno == 0 && c1.badPackets == 0 && acks == [Wire(s.wrap, k + 1)])
            && (n == k + 1 && |c.stored| + |Payload(s, n)| > c.capacity ==>
                  k1 == k && c1.errno == -2 && acks == [])
            && (n == k ==>
                  k1 == k && c1.errno == 0 && c1.badPackets == c.badPackets + 1 && acks == [Wire(s.wrap, k)])
            && (n < k && Wire(s.wrap, n) < Wire(s.wrap, k) ==>
                  k1 == k && c1.errno == 0 && c1.badPackets == c.badPackets + 1 && acks == [])
            && (n < k && Wire(s.wrap, n) > Wire(s.wrap, k) ==> k1 == k && c1.errno == -42 && acks == [])
            && (n < k ==> Wire(s.wrap, n) != Wire(s.wrap, k))
  {
    hide Wire, Last;
    OnlyNextIsExpected(s.wrap, c, k, n);
    var c0 := c.(port := Signed16(port));
    if n == k + 1 {
      OnlyNextIsExpected(s.wrap, c0, k, n);
      AcceptStores(s, c0, k);
    }
  }

  lemma HelloArrives(s: Server, c: Client, k: nat, sized: bool, d: Delivery)
    requires ValidServer(s) && k < Last(s) && ClientInv(s, c, k, sized) && c.errno == 0 && !c.finished
    requires d.Hello? && s.greeting != Data1
    ensures var (c1, acks) := Arrive(c, ArrivalOf(s, d));
            && ClientInv(s, c1, k, true) && StoredAfter(c, c1, k) == k
            && c1.capacity == c.capacity && c1.badPackets == c.badPackets && c1.port == Signed16(d.port)
            && (s.blocksize <= MAX_BLOCKSIZE ==> c1.errno == 0 && acks == [0])
            && (s.blocksize > MAX_BLOCKSIZE ==> c1.errno == -8 && acks == [])
  {
    hide Wire, Last, GetBlksize, Decimal;
    if s.greeting == Oack {
      HelloSize(s, d);
    }
  }

  lemma OthersArrive(s: Server, c: Client, k: nat, sized: bool, d: Delivery)
    requires ValidServer(s) && k < Last(s) && ClientInv(s, c, k, sized) && c.errno == 0 && !c.finished
    requires match d case NoPacket => true case IcmpError(_) => true
                     case Other(p) => p.opcode != OP_DATA && p.opcode != OP_ACK && p.opcode != OP_OACK
                     case _ => false
    ensures var (c1, acks) := Arrive(c, ArrivalOf(s, d));
            ClientInv(s, c1, k, sized) && StoredAfter(c, c1, k) == k && acks == []
  {
    hide Wire, Last;
  }

  lemma ArrivalKeeps(s: Server, y: System, timeout: bool, d: Delivery)
    requires ValidServer(s) && Inv(s, y) && Enabled(s, y, ClientTurn(timeout, d))
    requires d.Block? ==> Offset(s, d.n - 1) <= Offset(s, d.n)
    ensures var c := y.loop.client;
            var (c1, acks) := Arrive(c, ArrivalOf(s, d));
            var k1 := StoredAfter(c, c1, y.stored);
            var index := if d.Block? then d.n else 0;
            && ClientInv(s, c1, k1, y.sending >= 1 || y.acks != {} || acks != []) && y.stored <= k1 <= y.sending
            && forall x :: x in acks ==> x == Wire(s.wrap, index) && index <= k1
  {
    hide Wire, Last;
    var c := y.loop.client;
    match d
    case Hello(_) => HelloArrives(s, c, y.stored, y.sending >= 1 || y.acks != {}, d); WireZero(s.wrap);
    case Block(n, port) => BlockArrives(s, c, y.stored, n, port);
    case _ => OthersArrive(s, c, y.stored, y.sending >= 1 || y.acks != {}, d);
  }

  lemma WireZero(w: Wrap)
    ensures Wire(w, 0) == 0
  {
  }

  lemma TurnKeepsInv(s: Server, y: System, timeout: bool, d: Delivery, retries: nat)
    requires ValidServer(s) && Inv(s, y) && Enabled(s, y, ClientTurn(timeout, d))
    requires d.Block? ==> Offset(s, d.n - 1) <= Offset(s, d.n)
    ensures Inv(s, Turned(s, y, timeout, d, retries))
  {
    hide Wire, Last, Arrive, ArrivalOf;
    ArrivalKeeps(s, y, timeout, d);
    WireZero(s.wrap);
    var c := y.loop.client;
    var (c1, acks) := Arrive(c, ArrivalOf(s, d));
    var repeated := if timeout then Timeout(c, y.loop.noPackets) else [];
    assert repeated != [] ==> y.sending >= 1;
    var y1 := Turned(s, y, timeout, d, retries);
    if y1.acks != {} && y.acks == {} && repeated == [] {
      assert acks != [];
    }
  }

  lemma NextKeepsInv(s: Server, y: System, e: Event, retries: nat)
    requires ValidServer(s) && Inv(s, y) && Enabled(s, y, e)
    ensures Inv(s, Next(s, y, e, retries))
  {
    match e
    case AckArrives(_) => AckKeepsInv(s, y, e, retries);
    case ClientTurn(timeout, d) =>
      if d.Block? {
        Offsets(s, d.n);
      }
      TurnKeepsInv(s, y, timeout, d, retries);
  }

  // ----- runs

  /** The state behind `events`, None if one of them cannot happen. */
  function Run(s: Server, y: System, events: seq<Event>, retries: nat): Option<System>
    requires ValidServer(s)
    decreases |events|
  {
    if events == [] then Some(y)
    else if !Enabled(s, y, events[0]) then None
    else Run(s, Next(s, y, events[0], retries), events[1..], retries)
  }

  lemma {:induction false} RunKeepsInv(s: Server, y: System, events: seq<Event>, retries: nat)
    requires ValidServer(s) && Inv(s, y)
    ensures Run(s, y, events, retries).Some? ==> Inv(s, Run(s, y, events, retries).value)
    decreases |events|
  {
    hide Next, Inv, Possible, Timely;
    if events != [] && Enabled(s, y, events[0]) {
      NextKeepsInv(s, y, events[0], retries);
      RunKeepsInv(s, Next(s, y, events[0], retries), events[1..], retries);
    }
  }

  /** Whatever the network does, what the client has stored is a prefix of the file and fits its buffer;
      every acknowledgement it has sent names a block that is stored, together with all blocks before it;
      and if tftp returns a size instead of an error then exactly the whole file is stored. */
  lemma TransferIsSafe(s: Server, capacity: nat, events: seq<Event>, retries: nat)
    requires ValidServer(s)
    ensures match Run(s, Init(s, capacity), events, retries)
            case None => true
            case Some(y) =>
              var c := y.loop.client;
              && c.stored <= s.file && |c.stored| <= c.capacity
              && (forall a :: a in y.acks ==> a.number == Wire(s.wrap, a.index) && Offset(s, a.index) <= |c.stored|)
              && (y.loop.stopped && Result(y.loop) >= 0 ==> c.stored == s.file && Result(y.loop) == |s.file|)
  {
    InitInv(s, capacity);
    RunKeepsInv(s, Init(s, capacity), events, retries);
    var r := Run(s, Init(s, capacity), events, retries);
    if r.Some? {
      var y := r.value;
      forall a | a in y.acks
        ensures Offset(s, a.index) <= |y.loop.client.stored|
      {
        Multiples(a.index, y.stored, s.blocksize);
      }
      Offsets(s, Last(s));
    }
  }

  // ----- completion

  /** The client waits for the block the server sends, and nothing has gone wrong yet. */
  ghost predicate OnTrack(s: Server, y: System)
    requires ValidServer(s)
  {
    && Inv(s, y) && !y.loop.stopped && y.sending == y.stored + 1
    && y.loop.noPackets == 0 && y.loop.client.badPackets == 0
    && s.blocksize <= MAX_BLOCKSIZE && |s.file| <= y.loop.client.capacity
  }

  lemma NextBlock(s: Server, y: System, port: uint16, retries: nat)
    requires ValidServer(s) && OnTrack(s, y)
    ensures var e := ClientTurn(false, Block(y.stored + 1, port));
            Enabled(s, y, e)
            && var y1 := Next(s, y, e, retries);
               var c := y1.loop.client;
               && y1.stored == y.stored + 1 && y1.sending == y.sending
               && Ack(Wire(s.wrap, y1.stored), y1.stored) in y1.acks
               && y1.loop.noPackets == 0 && c.badPackets == 0 && c.errno == 0
               && c.capacity == y.loop.client.capacity
               && y1.loop.stopped == (y1.stored == Last(s))
  {
    hide Wire, Last;
    var n := y.stored + 1;
    Offsets(s, n);
    var c := y.loop.client;
    OnlyNextIsExpected(s.wrap, c, y.stored, n);
    var c0 := c.(port := Signed16(port));
    OnlyNextIsExpected(s.wrap, c0, y.stored, n);
    AcceptStores(s, c0, y.stored);
    assert |c.stored| + |Payload(s, n)| == Offset(s, n);
    assert Accept(c0, Wire(s.wrap, n), Payload(s, n)).1 == [Wire(s.wrap, n)];
    assert Wire(s.wrap, n) in [Wire(s.wrap, n)];
  }

  /** A lossless run until `target` blocks are stored. */
  lemma {:induction false} Advance(s: Server, y: System, target: nat, retries: nat) returns (events: seq<Event>)
    requires ValidServer(s) && OnTrack(s, y) && y.stored < target <= Last(s)
    ensures Run(s, y, events, retries).Some?
    ensures var y1 := Run(s, y, events, retries).value;
            && Inv(s, y1) && y1.stored == y1.sending == target && y1.loop.stopped == (target == Last(s))
            && y1.loop.client.errno == 0 && y1.loop.client.capacity == y.loop.client.capacity
    decreases target - y.stored
  {
    hide Next, Wire, Enabled, Last;
    var e := ClientTurn(false, Block(y.stored + 1, 69));
    NextBlock(s, y, 69, retries);
    NextKeepsInv(s, y, e, retries);
    var y1 := Next(s, y, e, retries);
    if y1.stored == target {
      events := [e];
      assert events[1..] == [];
    } else {
      var a := AckArrives(Ack(Wire(s.wrap, y1.stored), y1.stored));
      var y2 := GoOn(s, y1, a, retries);
      var more := Advance(s, y2, target, retries);
      events := [e, a] + more;
      assert events[1..] == [a] + more && events[1..][1..] == more;
    }
  }

  /** The first exchanges of a lossless run, and the run until `target` blocks are stored. */
  lemma Begin(s: Server, capacity: nat, target: nat, retries: nat) returns (events: seq<Event>)
    requires ValidServer(s) && s.blocksize <= MAX_BLOCKSIZE && |s.file| <= capacity && 1 <= target <= Last(s)
    ensures Run(s, Init(s, capacity), events, retries).Some?
    ensures var y1 := Run(s, Init(s, capacity), events, retries).value;
            && Inv(s, y1) && y1.stored == y1.sending == target && y1.loop.stopped == (target == Last(s))
            && y1.loop.client.errno == 0 && y1.loop.client.capacity == capacity
  {
    hide Next, Enabled, Wire, Last, Inv;
    var y := Init(s, capacity);
    InitInv(s, capacity);
    if s.greeting == Data1 {
      events := Advance(s, y, target, retries);
    } else {
      var hello := ClientTurn(false, Hello(69));
      var y1 := Greeted(s, y, hello, retries);
      WireZero(s.wrap);
      var a := AckArrives(Ack(Wire(s.wrap, 0), 0));
      var y2 := GoOn(s, y1, a, retries);
      var more := Advance(s, y2, target, retries);
      events := [hello, a] + more;
      assert events[1..] == [a] + more && events[1..][1..] == more;
    }
  }

  lemma GoOn(s: Server, y: System, e: Event, retries: nat) returns (y1: System)
    requires ValidServer(s) && Inv(s, y) && y.sending == y.stored < Last(s) && !y.loop.stopped
    requires e == AckArrives(Ack(Wire(s.wrap, y.stored), y.stored)) && e.ack in y.acks
    ensures Enabled(s, y, e) && y1 == Next(s, y, e, retries) == y.(sending := y.sending + 1) && Inv(s, y1)
  {
    hide Wire, Last;
    y1 := Next(s, y, e, retries);
    AckKeepsInv(s, y, e, retries);
  }

  /** The transfer can always be completed: if the block size is acceptable and the buffer large enough,
      a network that loses nothing brings the whole file, whatever the limit on retries. */
  lemma LosslessTransferCompletes(s: Server, capacity: nat, retries: nat) returns (events: seq<Event>)
    requires ValidServer(s) && s.blocksize <= MAX_BLOCKSIZE && |s.file| <= capacity
    ensures Run(s, Init(s, capacity), events, retries).Some?
    ensures var l := Run(s, Init(s, capacity), events, retries).value.loop;
            l.stopped && Result(l) == |s.file| && l.client.stored == s.file
  {
    hide Next, Enabled, Wire, Inv;
    events := Begin(s, capacity, Last(s), retries);
    TransferIsSafe(s, capacity, events, retries);
  }

  lemma Greeted(s: Server, y: System, e: Event, retries: nat) returns (y1: System)
    requires ValidServer(s) && s.blocksize <= MAX_BLOCKSIZE && s.greeting != Data1
    requires Inv(s, y) && y == Init(s, y.loop.client.capacity)
    requires e.ClientTurn? && !e.timeout && e.delivery.Hello?
    ensures Enabled(s, y, e) && y1 == Next(s, y, e, retries) && Inv(s, y1)
    ensures Ack(0, 0) in y1.acks && y1.sending == y1.stored == 0 && !y1.loop.stopped
    ensures y1.loop.noPackets == 0 && y1.loop.client.badPackets == 0
    ensures y1.loop.client.capacity == y.loop.client.capacity
  {
    hide Wire, Decimal, GetBlksize;
    assert Last(s) >= 1;
    if s.greeting == Oack {
      HelloSize(s, e.delivery);
    }
    y1 := Next(s, y, e, retries);
    NextKeepsInv(s, y, e, retries);
    assert Arrive(y.loop.client, ArrivalOf(s, e.delivery)).1 == [0];
    assert 0 in Arrive(y.loop.client, ArrivalOf(s, e.delivery)).1;
  }

  // ----- runs without losses

  /** What is under way arrives: the greeting, the block the server sends, or its acknowledgement. */
  predicate Delivers(y: System, e: Event) {
    match e
    case AckArrives(a) => y.sending == y.stored == a.index
    case ClientTurn(timeout, d) =>
      !timeout && if d.Hello? then y.acks == {} else d.Block? && d.n == y.sending == y.stored + 1
  }

  /** A turn of the main loop before the next packet has arrived. */
  predicate Idles(e: Event) { e == ClientTurn(false, NoPacket) }

  /** A run of a network that loses nothing: every packet arrives once, and before a timeout. */
  predicate Lossless(s: Server, y: System, events: seq<Event>, retries: nat)
    requires ValidServer(s)
    decreases |events|
  {
    events == []
    || (Enabled(s, y, events[0]) && (Idles(events[0]) || Delivers(y, events[0]))
        && Lossless(s, Next(s, y, events[0], retries), events[1..], retries))
  }

  function Deliveries(events: seq<Event>): nat {
    if events == [] then 0 else (if Idles(events[0]) then 0 else 1) + Deliveries(events[1..])
  }

  /** The packets of a transfer: each block and each acknowledgement, and the greeting and its acknowledgement
      if there is one. */
  function Packets(s: Server): nat
    requires ValidServer(s)
  {
    2 * Last(s) + if s.greeting == Data1 then -1 else 1
  }

  /** The packets that have arrived. */
  function Arrived(s: Server, y: System): int {
    y.stored + y.sending + if s.greeting == Data1 then -1 else if y.acks == {} then 0 else 1
  }

  ghost predicate Smooth(s: Server, y: System)
    requires ValidServer(s)
  {
    && Inv(s, y) && y.loop.noPackets == 0 && y.loop.client.badPackets == 0 && y.loop.client.errno == 0
    && s.blocksize <= MAX_BLOCKSIZE && |s.file| <= y.loop.client.capacity
    && (y.loop.stopped <==> y.stored == Last(s))
    && (s.greeting != Data1 && y.acks == {} ==> y == Init(s, y.loop.client.capacity))
    && (y.sending == y.stored && y.acks != {} ==> Ack(Wire(s.wrap, y.stored), y.stored) in y.acks)
    && (s.greeting == Data1 ==> y.sending >= 1 && (y.stored >= 1 ==> y.acks != {}))
  }

  lemma BlockIsSmooth(s: Server, y: System, e: Event, retries: nat)
    requires ValidServer(s) && Smooth(s, y) && Enabled(s, y, e) && Delivers(y, e)
    requires e.ClientTurn? && e.delivery.Block?
    ensures Smooth(s, Next(s, y, e, retries)) && Arrived(s, Next(s, y, e, retries)) == Arrived(s, y) + 1
  {
    hide Wire, Last, Next, Inv, Enabled;
    NotStopped(s, y, e);
    NextBlock(s, y, e.delivery.port, retries);
    NextKeepsInv(s, y, e, retries);
    SendingStarted(s, y);
  }

  lemma NotStopped(s: Server, y: System, e: Event)
    requires ValidServer(s) && Enabled(s, y, e) && e.ClientTurn?
    ensures !y.loop.stopped
  {
  }

  /** Blocks are only sent behind a greeting that was acknowledged. */
  lemma SendingStarted(s: Server, y: System)
    requires ValidServer(s) && Smooth(s, y) && y.sending >= 1
    ensures s.greeting == Data1 || y.acks != {}
  {
    hide Wire, Last, Inv;
  }

  lemma AckIsSmooth(s: Server, y: System, e: Event, retries: nat)
    requires ValidServer(s) && Smooth(s, y) && Enabled(s, y, e) && Delivers(y, e) && e.AckArrives?
    ensures Smooth(s, Next(s, y, e, retries)) && Arrived(s, Next(s, y, e, retries)) == Arrived(s, y) + 1
  {
    hide Wire, Last, Inv;
    NextKeepsInv(s, y, e, retries);
  }

  lemma HelloIsSmooth(s: Server, y: System, e: Event, retries: nat)
    requires ValidServer(s) && Smooth(s, y) && Enabled(s, y, e) && Delivers(y, e)
    requires e.ClientTurn? && e.delivery.Hello?
    ensures Smooth(s, Next(s, y, e, retries)) && Arrived(s, Next(s, y, e, retries)) == Arrived(s, y) + 1
  {
    hide Wire, Last, Next, Inv;
    var y1 := Greeted(s, y, e, retries);
    WireZero(s.wrap);
    LastIsPositive(s);
    HelloKeepsNoError(s, y, e, retries);
  }

  lemma LastIsPositive(s: Server)
    requires ValidServer(s)
    ensures Last(s) >= 1
  {
  }

  lemma HelloKeepsNoError(s: Server, y: System, e: Event, retries: nat)
    requires ValidServer(s) && Smooth(s, y) && Enabled(s, y, e) && e.ClientTurn? && !e.timeout && e.delivery.Hello?
    requires !Next(s, y, e, retries).loop.stopped && Inv(s, Next(s, y, e, retries))
    ensures Next(s, y, e, retries).loop.client.errno == 0
  {
    hide Wire, Last, Next;
  }

  lemma IdleIsSmooth(s: Server, y: System, e: Event, retries: nat)
    requires ValidServer(s) && Smooth(s, y) && Enabled(s, y, e) && Idles(e)
    ensures Next(s, y, e, retries) == y
  {
    hide Wire, Last;
  }

  lemma StepIsSmooth(s: Server, y: System, e: Event, retries: nat)
    requires ValidServer(s) && Smooth(s, y) && Enabled(s, y, e) && (Idles(e) || Delivers(y, e))
    ensures var y1 := Next(s, y, e, retries);
            Smooth(s, y1) && Arrived(s, y1) == Arrived(s, y) + if Idles(e) then 0 else 1
  {
    hide Smooth, Next, Enabled;
    if Idles(e) {
      IdleIsSmooth(s, y, e, retries);
    } else if e.AckArrives? {
      AckIsSmooth(s, y, e, retries);
    } else if e.delivery.Hello? {
      HelloIsSmooth(s, y, e, retries);
    } else {
      BlockIsSmooth(s, y, e, retries);
    }
  }

  lemma {:induction false} LosslessStaysSmooth(s: Server, y: System, events: seq<Event>, retries: nat)
    requires ValidServer(s) && Smooth(s, y) && Lossless(s, y, events, retries)
    ensures Run(s, y, events, retries).Some?
    ensures var y1 := Run(s, y, events, retries).value;
            Smooth(s, y1) && Arrived(s, y1) == Arrived(s, y) + Deliveries(events)
    decreases |events|
  {
    hide Smooth, Next, Possible, Timely, Delivers, Idles, Arrived;
    if events != [] {
      StepIsSmooth(s, y, events[0], retries);
      LosslessStaysSmooth(s, Next(s, y, events[0], retries), events[1..], retries);
    }
  }

  /** Something is under way until the transfer is complete. */
  lemma NextPacket(s: Server, y: System) returns (e: Event)
    requires ValidServer(s) && Smooth(s, y) && !y.loop.stopped
    ensures Enabled(s, y, e) && Delivers(y, e)
  {
    hide Wire, Last;
    e := if s.greeting != Data1 && y.acks == {} then ClientTurn(false, Hello(69))
         else if y.sending == y.stored then AckArrives(Ack(Wire(s.wrap, y.stored), y.stored))
         else ClientTurn(false, Block(y.sending, 69));
  }

  lemma InitIsSmooth(s: Server, capacity: nat)
    requires ValidServer(s) && s.blocksize <= MAX_BLOCKSIZE && |s.file| <= capacity
    ensures Smooth(s, Init(s, capacity)) && Arrived(s, Init(s, capacity)) == 0
  {
    hide Wire, Last, Inv;
    InitInv(s, capacity);
    LastIsPositive(s);
  }

  lemma SmoothIsDone(s: Server, y: System)
    requires ValidServer(s) && Smooth(s, y)
    ensures Arrived(s, y) <= Packets(s) && (y.loop.stopped <==> Arrived(s, y) == Packets(s))
  {
    hide Wire, Last;
    LastIsPositive(s);
  }

  /** Every run that loses nothing brings the whole file, whatever the retry limit: nothing goes wrong in it; it
      is complete exactly when all packets have arrived; and until then the next one can arrive. */
  lemma LosslessRunsComplete(s: Server, capacity: nat, events: seq<Event>, retries: nat) returns (next: Event)
    requires ValidServer(s) && s.blocksize <= MAX_BLOCKSIZE && |s.file| <= capacity
    requires Lossless(s, Init(s, capacity), events, retries)
    ensures Run(s, Init(s, capacity), events, retries).Some? && Deliveries(events) <= Packets(s)
    ensures var y := Run(s, Init(s, capacity), events, retries).value;
            && y.loop.client.errno == 0 && y.loop.client.stored <= s.file
            && (y.loop.stopped <==> Deliveries(events) == Packets(s))
            && (y.loop.stopped ==> Result(y.loop) == |s.file| && y.loop.client.stored == s.file)
            && (!y.loop.stopped ==> Enabled(s, y, next) && Delivers(y, next))
  {
    hide Wire, Last, Inv, Run, Lossless, Init, Arrived, Deliveries, Packets, Enabled;
    InitIsSmooth(s, capacity);
    LosslessStaysSmooth(s, Init(s, capacity), events, retries);
    var y := Run(s, Init(s, capacity), events, retries).value;
    SmoothIsDone(s, y);
    TransferIsSafe(s, capacity, events, retries);
    next := ClientTurn(false, NoPacket);
    if !y.loop.stopped {
      next := NextPacket(s, y);
    }
  }

  // ----- without the bound on delays

  /** A run in which packets may be delayed without bound. */
  function LateRun(s: Server, y: System, events: seq<Event>, retries: nat): Option<System>
    requires ValidServer(s)
    decreases |events|
  {
    if events == [] then Some(y)
    else if !Possible(s, y, events[0]) then None
    else LateRun(s, Next(s, y, events[0], retries), events[1..], retries)
  }

  lemma {:induction false} RunThenLate(s: Server, y: System, events: seq<Event>, more: seq<Event>, retries: nat)
    requires ValidServer(s) && Run(s, y, events, retries).Some?
    ensures LateRun(s, y, events + more, retries) == LateRun(s, Run(s, y, events, retries).value, more, retries)
    decreases |events|
  {
    hide Next, Possible, Timely;
    if events == [] {
      assert events + more == more;
    } else {
      assert (events + more)[0] == events[0] && (events + more)[1..] == events[1..] + more;
      RunThenLate(s, Next(s, y, events[0], retries), events[1..], more, retries);
    }
  }

  /** The first block, arriving again behind block 65535, is stored as block 65536. */
  lemma FirstBlockAgain(s: Server, y: System, retries: nat)
    requires ValidServer(s) && Inv(s, y) && y.stored == y.sending == 0xffff < Last(s) && y.loop.client.errno == 0
    requires !y.loop.stopped && y.loop.client.capacity >= |s.file| + s.blocksize
    ensures var e := ClientTurn(false, Block(1, 69));
            && Offset(s, 0) <= Offset(s, 1) && Possible(s, y, e) && !Timely(s, y, e)
            && Next(s, y, e, retries).loop.client.stored == y.loop.client.stored + Payload(s, 1)
  {
    hide Last;
    Offsets(s, 1);
    TakenForNext(s.wrap, y.loop.client, 0xffff, 1);
  }

  /** The bound on delays is needed, and exact: in a file of more than 65535 blocks the first block, delayed by
      65534 blocks, is taken for block 65536, and what the client then holds is a prefix of the file only if
      these two blocks are equal. */
  lemma LateBlockSpoilsFile(s: Server, capacity: nat, retries: nat) returns (events: seq<Event>)
    requires ValidServer(s) && s.blocksize <= MAX_BLOCKSIZE && capacity >= |s.file| + s.blocksize
    requires Last(s) > 0xffff
    ensures Offset(s, 0) <= Offset(s, 1) && Offset(s, 0xffff) <= Offset(s, 0x1_0000)
    ensures !Fresh(s, 1 + DELAY, 1) && Fresh(s, DELAY, 1)
    ensures LateRun(s, Init(s, capacity), events, retries).Some?
    ensures var c := LateRun(s, Init(s, capacity), events, retries).value.loop.client;
            c.stored <= s.file <==> Payload(s, 0x1_0000) == Payload(s, 1)
  {
    hide Next, Wire, Inv, Possible, Timely, Last, Run, Init;
    var run := Begin(s, capacity, 0xffff, retries);
    var y, e := Run(s, Init(s, capacity), run, retries).value, ClientTurn(false, Block(1, 69));
    FirstBlockAgain(s, y, retries);
    RunThenLate(s, Init(s, capacity), run, [e], retries);
    events := run + [e];
    assert [e][1..] == [];
    Offsets(s, 1);
    Offsets(s, 0x1_0000);
    StoredThenFirst(s, y);
  }

  lemma StoredThenFirst(s: Server, y: System)
    requires ValidServer(s) && Inv(s, y) && y.stored == 0xffff < Last(s)
    requires Offset(s, 0) <= Offset(s, 1) && Offset(s, 0xffff) <= Offset(s, 0x1_0000)
    ensures y.loop.client.stored + Payload(s, 1) <= s.file <==> Payload(s, 0x1_0000) == Payload(s, 1)
  {
    hide Wire, Last;
    Offsets(s, 1);
    Offsets(s, 0x1_0000);
    var a, b := s.file[..Offset(s, 0xffff)], Payload(s, 1);
    assert |b| == s.blocksize;
    if a + b <= s.file {
      assert s.file[|a|..|a| + |b|] == (a + b)[|a|..] == b;
    }
  }
}
