/** The client of lib/libnet/tftp.c in a network where each acknowledgement arrives at most once and can
    get lost: a server that sends its block again gets a new acknowledgement, so the file still arrives. */
module TftpLosses {
  import opened Bytes
  import opened Tftp
  import opened TftpNetwork

  /** `flying` are the acknowledgements in the network, each as often as it was sent and has neither
      arrived nor got lost. */
  datatype Net = Net(y: System, flying: multiset<Ack>)

  datatype Move = Wakes(timeout: bool, delivery: Delivery) | Arrives(ack: Ack) | Vanishes(ack: Ack)

  function Start(s: Server, capacity: nat): Net { Net(Init(s, capacity), multiset{}) }

  function Tags(numbers: seq<uint16>, index: nat): (t: seq<Ack>)
    ensures |t| == |numbers|
    ensures forall i :: 0 <= i < |t| ==> t[i] == Ack(numbers[i], index)
  {
    seq(|numbers|, i requires 0 <= i < |numbers| => Ack(numbers[i], index))
  }

  /** The acknowledgements the client sends in one turn of its main loop. */
  function Sent(s: Server, y: System, timeout: bool, d: Delivery): seq<Ack>
    requires d.Block? ==> d.n >= 1 && Offset(s, d.n - 1) <= Offset(s, d.n)
  {
    Tags(if timeout then Timeout(y.loop.client, y.loop.noPackets) else [], y.stored)
    + Tags(Arrive(y.loop.client, ArrivalOf(s, d)).1, if d.Block? then d.n else 0)
  }

  predicate Can(s: Server, n: Net, m: Move)
    requires ValidServer(s)
  {
    match m
    case Wakes(timeout, d) => Enabled(s, n.y, ClientTurn(timeout, d))
    case Arrives(a) => a in n.flying && Fresh(s, n.y.sending, a.index)
    case Vanishes(a) => a in n.flying
  }

  /** The server ignores an acknowledgement of another block than the one it sends. */
  function Step(s: Server, n: Net, m: Move, retries: nat): Net
    requires ValidServer(s) && Can(s, n, m)
  {
    match m
    case Wakes(timeout, d) =>
      if d.Block? then Offsets(s, d.n); Woken(s, n, timeout, d, retries) else Woken(s, n, timeout, d, retries)
    case Arrives(a) =>
      Net(if a.number == Wire(s.wrap, n.y.sending) && n.y.sending < Last(s)
          then n.y.(sending := n.y.sending + 1) else n.y,
          n.flying - multiset{a})
    case Vanishes(a) => n.(flying := n.flying - multiset{a})
  }

  function Woken(s: Server, n: Net, timeout: bool, d: Delivery, retries: nat): Net
    requires d.Block? ==> d.n >= 1 && Offset(s, d.n - 1) <= Offset(s, d.n)
  {
    Net(Turned(s, n.y, timeout, d, retries), n.flying + multiset(Sent(s, n.y, timeout, d)))
  }

  function Runs(s: Server, n: Net, ms: seq<Move>, retries: nat): Option<Net>
    requires ValidServer(s)
    decreases |ms|
  {
    if ms == [] then Some(n)
    else if !Can(s, n, ms[0]) then None
    else Runs(s, Step(s, n, ms[0], retries), ms[1..], retries)
  }

  // ----- the invariant

  ghost predicate Flies(s: Server, n: Net)
    requires ValidServer(s)
  {
    Inv(s, n.y) && forall a :: a in n.flying ==> a in n.y.acks
  }

  lemma SentIsKnown(s: Server, y: System, timeout: bool, d: Delivery, retries: nat, a: Ack)
    requires d.Block? ==> d.n >= 1 && Offset(s, d.n - 1) <= Offset(s, d.n)
    requires a in Sent(s, y, timeout, d)
    ensures a in Turned(s, y, timeout, d, retries).acks
  {
    hide Timeout, Arrive, TakeTurn;
    var repeated := if timeout then Timeout(y.loop.client, y.loop.noPackets) else [];
    var acks := Arrive(y.loop.client, ArrivalOf(s, d)).1;
    var index := if d.Block? then d.n else 0;
    if a in Tags(repeated, y.stored) {
      assert a.number in repeated && a in Tagged(repeated, y.stored);
    } else {
      assert a.number in acks && a in Tagged(acks, index);
    }
  }

  /** Every move is a step of the network that duplicates packets, or leaves client and server alone. */
  lemma StepFlies(s: Server, n: Net, m: Move, retries: nat)
    requires ValidServer(s) && Flies(s, n) && Can(s, n, m)
    ensures Flies(s, Step(s, n, m, retries))
  {
    hide Wire, Last, Inv, Sent, Turned, Fresh;
    match m
    case Wakes(timeout, d) =>
      NextKeepsInv(s, n.y, ClientTurn(timeout, d), retries);
      if d.Block? {
        Offsets(s, d.n);
      }
      WokenFlies(s, n, timeout, d, retries);
    case Arrives(a) =>
      if a.number == Wire(s.wrap, n.y.sending) && n.y.sending < Last(s) {
        NextKeepsInv(s, n.y, AckArrives(a), retries);
      }
    case Vanishes(a) =>
  }

  lemma WokenFlies(s: Server, n: Net, timeout: bool, d: Delivery, retries: nat)
    requires d.Block? ==> d.n >= 1 && Offset(s, d.n - 1) <= Offset(s, d.n)
    requires forall a :: a in n.flying ==> a in n.y.acks
    ensures var n1 := Woken(s, n, timeout, d, retries);
            forall a :: a in n1.flying ==> a in n1.y.acks
  {
    var n1 := Woken(s, n, timeout, d, retries);
    forall a | a in n1.flying
      ensures a in n1.y.acks
    {
      if a !in n.flying {
        assert a in Sent(s, n.y, timeout, d);
        SentIsKnown(s, n.y, timeout, d, retries, a);
      }
    }
  }

  // ----- runs within the retry limits

  /** Nothing has gone wrong, and the limits are kept. */
  ghost predicate Going(s: Server, n: Net, retries: nat)
    requires ValidServer(s)
  {
    var c := n.y.loop.client;
    && Flies(s, n) && c.errno == 0 && c.badPackets <= retries && n.y.loop.noPackets <= retries
    && s.blocksize <= MAX_BLOCKSIZE && |s.file| <= c.capacity
    && (s.greeting == Data1 ==> n.y.sending >= 1)
  }

  /** What a server that answers lost acknowledgements by sending its packet again can cause within the limits:
      its current packet arrives, once or again; timeouts; and acknowledgements that arrive or get lost. */
  predicate Tolerated(n: Net, m: Move, retries: nat) {
    m.Wakes? ==>
      && (m.timeout ==> n.y.loop.noPackets < retries)
      && match m.delivery
         case NoPacket => true
         case Hello(_) => n.y.sending == 0
         case Block(k, _) => k == n.y.sending && (k == n.y.stored ==> n.y.loop.client.badPackets < retries)
         case _ => false
  }

  /** The client's part of such a turn. */
  lemma ArrivalGoes(s: Server, n: Net, timeout: bool, d: Delivery, retries: nat)
    requires ValidServer(s) && Going(s, n, retries)
    requires Can(s, n, Wakes(timeout, d)) && Tolerated(n, Wakes(timeout, d), retries)
    requires d.Block? ==> Offset(s, d.n - 1) <= Offset(s, d.n)
    ensures var c := n.y.loop.client;
            var (c1, acks) := Arrive(c, ArrivalOf(s, d));
            var stored := if d.Block? then d.n else n.y.stored;
            && c1.errno == 0 && c1.capacity == c.capacity
            && c1.port == (if d.NoPacket? then c.port else Signed16(d.port))
            && StoredAfter(c, c1, n.y.stored) == stored <= Last(s) && (c1.finished <==> stored == Last(s))
            && c1.badPackets == (if !d.Block? then c.badPackets else if d.n == n.y.stored then c.badPackets + 1 else 0)
            && acks == (if d.NoPacket? then [] else [Wire(s.wrap, stored)])
  {
    hide Wire, Last, GetBlksize, Decimal, Receive;
    var y, c := n.y, n.y.loop.client;
    match d
    case NoPacket =>
    case Hello(port) => HelloArrives(s, c, y.stored, y.acks != {}, d); WireZero(s.wrap);
    case Block(k, port) =>
      Offsets(s, k);
      BlockArrives(s, c, y.stored, k, port);
  }

  /** What such a turn does: a block that was not stored yet is stored, and whatever block or greeting arrives
      is acknowledged with its number. */
  lemma TurnGoes(s: Server, n: Net, timeout: bool, d: Delivery, retries: nat)
    requires ValidServer(s) && Going(s, n, retries)
    requires Can(s, n, Wakes(timeout, d)) && Tolerated(n, Wakes(timeout, d), retries)
    ensures var n1 := Step(s, n, Wakes(timeout, d), retries);
            var c, c1 := n.y.loop.client, n1.y.loop.client;
            && Going(s, n1, retries) && n1.y.sending == n.y.sending && c1.capacity == c.capacity
            && n1.y.loop.noPackets == n.y.loop.noPackets + (if timeout then 1 else 0)
            && n1.y.stored == (if d.Block? then d.n else n.y.stored)
            && c1.badPackets == (if !d.Block? then c.badPackets else if d.n == n.y.stored then c.badPackets + 1 else 0)
            && (n1.y.loop.stopped <==> n1.y.stored == Last(s))
  {
    hide Wire, Last, GetBlksize, Decimal, Fresh, Receive, Arrive, Inv, ArrivalOf, Sent;
    StepFlies(s, n, Wakes(timeout, d), retries);
    if d.Block? {
      Offsets(s, d.n);
    }
    ArrivalGoes(s, n, timeout, d, retries);
  }

  /** The acknowledgements of such a turn: the number of the block or greeting that arrives, and at a timeout
      the last number once more if the transfer is under way. */
  lemma TurnAcknowledges(s: Server, n: Net, timeout: bool, d: Delivery, retries: nat)
    requires ValidServer(s) && Going(s, n, retries)
    requires Can(s, n, Wakes(timeout, d)) && Tolerated(n, Wakes(timeout, d), retries)
    ensures var stored := if d.Block? then d.n else n.y.stored;
            Step(s, n, Wakes(timeout, d), retries).flying ==
            n.flying + AckIf(s, Repeats(s, n, timeout), n.y.stored) + AckIf(s, !d.NoPacket?, stored)
  {
    hide Wire, Last, Receive, Arrive, ArrivalOf, Turned, Inv, Timeout, AckIf, Repeats, Woken, Fresh, Going;
    if d.Block? {
      Offsets(s, d.n);
    }
    ArrivalGoes(s, n, timeout, d, retries);
    GreetingIsFirst(s, n, timeout, d, retries);
    Repeated(s, n, timeout, retries);
    WokenAcknowledges(s, n, timeout, d, retries, Repeats(s, n, timeout), if d.Block? then d.n else n.y.stored);
  }

  lemma WokenAcknowledges(s: Server, n: Net, timeout: bool, d: Delivery, retries: nat, again: bool, stored: nat)
    requires d.Block? ==> d.n >= 1 && Offset(s, d.n - 1) <= Offset(s, d.n)
    requires (if timeout then Timeout(n.y.loop.client, n.y.loop.noPackets) else [])
             == if again then [Wire(s.wrap, n.y.stored)] else []
    requires Arrive(n.y.loop.client, ArrivalOf(s, d)).1 == if d.NoPacket? then [] else [Wire(s.wrap, stored)]
    requires d.NoPacket? || stored == if d.Block? then d.n else 0
    ensures Woken(s, n, timeout, d, retries).flying ==
            n.flying + AckIf(s, again, n.y.stored) + AckIf(s, !d.NoPacket?, stored)
  {
    hide Wire, Arrive, ArrivalOf, Turned, Timeout, Tags, AckIf;
    var index := if d.Block? then d.n else 0;
    var numbers := Arrive(n.y.loop.client, ArrivalOf(s, d)).1;
    var repeated := if timeout then Timeout(n.y.loop.client, n.y.loop.noPackets) else [];
    if d.NoPacket? {
      OneTag(s, numbers, index);
    } else {
      OneTag(s, numbers, stored);
    }
    OneTag(s, repeated, n.y.stored);
    Together(n.flying, Tags(repeated, n.y.stored), Tags(numbers, index));
    assert AckIf(s, false, index) == AckIf(s, false, stored) by {
      NoAck(s, index, stored);
    }
  }

  lemma NoAck(s: Server, i: nat, j: nat)
    ensures AckIf(s, false, i) == AckIf(s, false, j)
  {
  }

  lemma Together(m: multiset<Ack>, a: seq<Ack>, b: seq<Ack>)
    ensures m + multiset(a + b) == m + multiset(a) + multiset(b)
  {
  }

  function AckIf(s: Server, yes: bool, n: nat): multiset<Ack> {
    if yes then multiset{Ack(Wire(s.wrap, n), n)} else multiset{}
  }

  predicate Repeats(s: Server, n: Net, timeout: bool) {
    timeout && n.y.loop.noPackets > 4 && n.y.loop.client.port != -1 && Wire(s.wrap, n.y.stored) > 1
  }

  lemma GreetingIsFirst(s: Server, n: Net, timeout: bool, d: Delivery, retries: nat)
    requires ValidServer(s) && Going(s, n, retries) && Tolerated(n, Wakes(timeout, d), retries)
    ensures !d.Block? && !d.NoPacket? ==> n.y.stored == 0
  {
    hide Wire, Last;
  }

  lemma Repeated(s: Server, n: Net, timeout: bool, retries: nat)
    requires ValidServer(s) && Going(s, n, retries)
    ensures (if timeout then Timeout(n.y.loop.client, n.y.loop.noPackets) else [])
            == if Repeats(s, n, timeout) then [Wire(s.wrap, n.y.stored)] else []
  {
    hide Wire, Last;
  }

  lemma OneTag(s: Server, numbers: seq<uint16>, index: nat)
    requires numbers == [] || numbers == [Wire(s.wrap, index)]
    ensures multiset(Tags(numbers, index)) == AckIf(s, numbers != [], index)
  {
    hide Wire;
    assert numbers == [] ==> Tags(numbers, index) == [];
    assert numbers != [] ==> Tags(numbers, index) == [Ack(numbers[0], index)];
  }

  lemma StepGoes(s: Server, n: Net, m: Move, retries: nat)
    requires ValidServer(s) && Going(s, n, retries) && Can(s, n, m) && Tolerated(n, m, retries)
    ensures Going(s, Step(s, n, m, retries), retries)
  {
    hide Wire, Last, Inv, Fresh, Flies;
    if m.Wakes? {
      TurnGoes(s, n, m.timeout, m.delivery, retries);
    } else {
      StepFlies(s, n, m, retries);
    }
  }

  predicate Lossy(s: Server, n: Net, ms: seq<Move>, retries: nat)
    requires ValidServer(s)
    decreases |ms|
  {
    ms == []
    || (Can(s, n, ms[0]) && Tolerated(n, ms[0], retries) && Lossy(s, Step(s, n, ms[0], retries), ms[1..], retries))
  }

  lemma StartGoes(s: Server, capacity: nat, retries: nat)
    requires ValidServer(s) && s.blocksize <= MAX_BLOCKSIZE && |s.file| <= capacity
    ensures Going(s, Start(s, capacity), retries)
  {
    InitInv(s, capacity);
  }

  /** What Going means for the caller of tftp. */
  lemma GoingIsSafe(s: Server, n: Net, retries: nat)
    requires ValidServer(s) && Going(s, n, retries)
    ensures var l := n.y.loop;
            && l.client.stored <= s.file && (l.stopped <==> n.y.stored == Last(s))
            && (l.stopped ==> Result(l) == |s.file| && l.client.stored == s.file)
  {
    hide Wire;
    Offsets(s, Last(s));
  }

  /** Whatever is lost, a run within the limits stays right: no error, a prefix of the file, and the whole
      file exactly when the client stops. */
  lemma {:induction false} LossyRunsAreSafe(s: Server, n: Net, ms: seq<Move>, retries: nat)
    requires ValidServer(s) && Going(s, n, retries) && Lossy(s, n, ms, retries)
    ensures Runs(s, n, ms, retries).Some? && Going(s, Runs(s, n, ms, retries).value, retries)
    ensures var l := Runs(s, n, ms, retries).value.y.loop;
            l.client.errno == 0 && l.client.stored <= s.file
            && (l.stopped ==> Result(l) == |s.file| && l.client.stored == s.file)
    decreases |ms|
  {
    hide Step, Going, Can, Tolerated;
    if ms == [] {
      GoingIsSafe(s, n, retries);
      NoError(s, n, retries);
    } else {
      StepGoes(s, n, ms[0], retries);
      LossyRunsAreSafe(s, Step(s, n, ms[0], retries), ms[1..], retries);
    }
  }

  lemma NoError(s: Server, n: Net, retries: nat)
    requires ValidServer(s) && Going(s, n, retries)
    ensures n.y.loop.client.errno == 0
  {
  }

  // ----- completion

  /** How often an acknowledgement of block `k` gets lost. */
  function Losses(ms: seq<Move>, k: nat): nat {
    if ms == [] then 0 else (if ms[0].Vanishes? && ms[0].ack.index == k then 1 else 0) + Losses(ms[1..], k)
  }

  lemma {:induction false} LossesAdd(a: seq<Move>, b: seq<Move>, k: nat)
    ensures Losses(a + b, k) == Losses(a, k) + Losses(b, k)
    decreases |a|
  {
    if a == [] {
      assert a + b == b;
    } else {
      assert (a + b)[0] == a[0] && (a + b)[1..] == a[1..] + b;
      LossesAdd(a[1..], b, k);
    }
  }

  lemma {:induction false} RunsOn(s: Server, n: Net, a: seq<Move>, b: seq<Move>, retries: nat)
    requires ValidServer(s) && Lossy(s, n, a, retries) && Runs(s, n, a, retries).Some?
    requires Lossy(s, Runs(s, n, a, retries).value, b, retries)
    ensures Lossy(s, n, a + b, retries)
    ensures Runs(s, n, a + b, retries) == Runs(s, Runs(s, n, a, retries).value, b, retries)
    decreases |a|
  {
    hide Step, Can, Tolerated;
    if a == [] {
      assert a + b == b;
    } else {
      assert (a + b)[0] == a[0] && (a + b)[1..] == a[1..] + b;
      RunsOn(s, Step(s, n, a[0], retries), a[1..], b, retries);
    }
  }

  /** The client waits with nothing gone wrong. */
  ghost predicate Waits(s: Server, n: Net, retries: nat)
    requires ValidServer(s)
  {
    Going(s, n, retries) && !n.y.loop.stopped && n.y.stored < Last(s)
  }

  ghost predicate AckFlies(s: Server, n: Net) { Ack(Wire(s.wrap, n.y.stored), n.y.stored) in n.flying }

  /** One move as a run. */
  lemma OneMove(s: Server, n: Net, m: Move, retries: nat)
    requires ValidServer(s) && Can(s, n, m) && Tolerated(n, m, retries)
    ensures Lossy(s, n, [m], retries) && Runs(s, n, [m], retries) == Some(Step(s, n, m, retries))
    ensures forall k :: Losses([m], k) == if m.Vanishes? && m.ack.index == k then 1 else 0
  {
    hide Step, Can, Tolerated;
    assert [m][1..] == [];
  }

  /** The server sends its packet again and the client acknowledges it again. */
  lemma SendsAgain(s: Server, n: Net, retries: nat) returns (m: Move, n1: Net)
    requires ValidServer(s) && Waits(s, n, retries) && n.y.sending == n.y.stored
    requires n.y.stored >= 1 ==> n.y.loop.client.badPackets < retries
    ensures m.Wakes? && Can(s, n, m) && Tolerated(n, m, retries) && n1 == Step(s, n, m, retries)
    ensures Waits(s, n1, retries) && AckFlies(s, n1) && n1.y.sending == n1.y.stored == n.y.stored
    ensures n.y.stored >= 1 ==> n1.y.loop.client.badPackets == n.y.loop.client.badPackets + 1
  {
    hide Wire, Last, Inv, Flies;
    var d := if n.y.stored == 0 then Hello(69) else Block(n.y.stored, 69);
    m := Wakes(false, d);
    TurnGoes(s, n, false, d, retries);
    TurnAcknowledges(s, n, false, d, retries);
    n1 := Step(s, n, m, retries);
  }

  /** The next block arrives. */
  lemma Stores(s: Server, n: Net, retries: nat) returns (m: Move, n1: Net)
    requires ValidServer(s) && Waits(s, n, retries) && n.y.sending == n.y.stored + 1
    ensures m.Wakes? && Can(s, n, m) && Tolerated(n, m, retries) && n1 == Step(s, n, m, retries)
    ensures Going(s, n1, retries) && AckFlies(s, n1) && n1.y.sending == n1.y.stored == n.y.stored + 1
    ensures n1.y.loop.client.badPackets == 0
    ensures n1.y.loop.stopped <==> n1.y.stored == Last(s)
  {
    hide Wire, Last, Inv, Flies;
    var d := Block(n.y.stored + 1, 69);
    m := Wakes(false, d);
    TurnGoes(s, n, false, d, retries);
    TurnAcknowledges(s, n, false, d, retries);
    n1 := Step(s, n, m, retries);
  }

  /** The acknowledgement arrives and the server goes on. */
  lemma GoesOn(s: Server, n: Net, retries: nat) returns (m: Move, n1: Net)
    requires ValidServer(s) && Waits(s, n, retries) && AckFlies(s, n) && n.y.sending == n.y.stored
    ensures m.Arrives? && Can(s, n, m) && Tolerated(n, m, retries) && n1 == Step(s, n, m, retries)
    ensures Waits(s, n1, retries) && n1.y.stored == n.y.stored && n1.y.sending == n.y.sending + 1
  {
    hide Wire, Last, Inv, Flies;
    m := Arrives(Ack(Wire(s.wrap, n.y.stored), n.y.stored));
    StepGoes(s, n, m, retries);
    n1 := Step(s, n, m, retries);
  }

  lemma GetsLost(s: Server, n: Net, retries: nat) returns (m: Move, n1: Net)
    requires ValidServer(s) && Waits(s, n, retries) && AckFlies(s, n)
    ensures m.Vanishes? && m.ack.index == n.y.stored && Can(s, n, m) && Tolerated(n, m, retries)
    ensures n1 == Step(s, n, m, retries) && Waits(s, n1, retries) && n1.y == n.y
  {
    hide Wire, Last, Inv, Flies;
    m := Vanishes(Ack(Wire(s.wrap, n.y.stored), n.y.stored));
    StepGoes(s, n, m, retries);
    n1 := Step(s, n, m, retries);
  }

  /** The acknowledgement of the block stored last gets lost `times` times, and flies once more. */
  lemma {:induction false} Loses(s: Server, n: Net, times: nat, retries: nat) returns (ms: seq<Move>, n1: Net)
    requires ValidServer(s) && Waits(s, n, retries) && AckFlies(s, n) && n.y.sending == n.y.stored
    requires n.y.stored >= 1 ==> n.y.loop.client.badPackets + times <= retries
    ensures Lossy(s, n, ms, retries) && Runs(s, n, ms, retries) == Some(n1)
    ensures Waits(s, n1, retries) && AckFlies(s, n1) && n1.y.sending == n1.y.stored == n.y.stored
    ensures forall k :: Losses(ms, k) == if k == n.y.stored then times else 0
    decreases times
  {
    hide Waits, AckFlies, Step, Can, Tolerated;
    if times == 0 {
      ms, n1 := [], n;
    } else {
      var m, n2 := GetsLost(s, n, retries);
      var m2, n3 := SendsAgain(s, n2, retries);
      var rest;
      rest, n1 := Loses(s, n3, times - 1, retries);
      ms := [m, m2] + rest;
      assert ms[1..] == [m2] + rest && ms[1..][1..] == rest;
      assert forall k :: Losses(ms, k) == (if k == n.y.stored then 1 else 0) + Losses(rest, k);
    }
  }

  predicate Bounded(losses: seq<nat>, retries: nat) { forall k :: 0 <= k < |losses| ==> losses[k] <= retries }

  /** From the next block on, with the given number of losses for each block. */
  lemma {:induction false} Completes(s: Server, n: Net, losses: seq<nat>, retries: nat)
    returns (ms: seq<Move>, n1: Net)
    requires ValidServer(s) && Waits(s, n, retries) && n.y.sending == n.y.stored + 1
    requires |losses| == Last(s) && Bounded(losses, retries)
    ensures Lossy(s, n, ms, retries) && Runs(s, n, ms, retries) == Some(n1)
    ensures Going(s, n1, retries) && n1.y.loop.stopped
    ensures forall k :: n.y.stored < k < Last(s) ==> Losses(ms, k) == losses[k]
    ensures forall k: nat :: k <= n.y.stored ==> Losses(ms, k) == 0
    decreases Last(s) - n.y.stored, 0
  {
    hide Going, AckFlies, Step, Can, Tolerated, Last;
    var m, n2 := Stores(s, n, retries);
    OneMove(s, n, m, retries);
    if n2.y.stored == Last(s) {
      ms, n1 := [m], n2;
    } else {
      var lost, n3 := Loses(s, n2, losses[n2.y.stored], retries);
      var rest;
      rest, n1 := AcknowledgedThenCompletes(s, n3, losses, retries);
      RunsOn(s, n2, lost, rest, retries);
      RunsOn(s, n, [m], lost + rest, retries);
      ms := [m] + (lost + rest);
      forall k
        ensures Losses(ms, k) == Losses(lost, k) + Losses(rest, k)
      {
        LossesAdd([m], lost + rest, k);
        LossesAdd(lost, rest, k);
      }
    }
  }

  lemma {:induction false} AcknowledgedThenCompletes(s: Server, n: Net, losses: seq<nat>, retries: nat)
    returns (ms: seq<Move>, n1: Net)
    requires ValidServer(s) && Waits(s, n, retries) && AckFlies(s, n) && n.y.sending == n.y.stored
    requires |losses| == Last(s) && Bounded(losses, retries)
    ensures Lossy(s, n, ms, retries) && Runs(s, n, ms, retries) == Some(n1)
    ensures Going(s, n1, retries) && n1.y.loop.stopped
    ensures forall k :: n.y.stored < k < Last(s) ==> Losses(ms, k) == losses[k]
    ensures forall k: nat :: k <= n.y.stored ==> Losses(ms, k) == 0
    decreases Last(s) - n.y.stored, 1
  {
    hide Waits, Going, AckFlies, Step, Can, Tolerated, Last;
    var m, n2 := GoesOn(s, n, retries);
    var rest;
    rest, n1 := Completes(s, n2, losses, retries);
    ms := [m] + rest;
    assert ms[1..] == rest;
  }

  /** Everything in the network gets lost. */
  lemma {:induction false} AllVanish(s: Server, n: Net, retries: nat) returns (ms: seq<Move>)
    requires ValidServer(s)
    ensures Lossy(s, n, ms, retries) && Runs(s, n, ms, retries) == Some(n.(flying := multiset{}))
    ensures forall m :: m in ms ==> m.Vanishes?
    decreases |n.flying|
  {
    hide Wire, Last, Woken, Fresh, Enabled, Possible, Timely;
    if n.flying == multiset{} {
      ms := [];
    } else {
      var a :| a in n.flying;
      var rest := AllVanish(s, n.(flying := n.flying - multiset{a}), retries);
      ms := [Vanishes(a)] + rest;
      assert ms[1..] == rest;
    }
  }

  /** Losses are made up for. From every state that a run within the limits reaches, even if everything in the
      network gets lost, and then the acknowledgement of each further block as often as `losses` says: if that
      is within the limit on unexpected packets, the whole file still arrives. For the block stored last the
      limit counts the repetitions so far and one more to replace the acknowledgement lost first. */
  lemma LossesAreMadeUpFor(s: Server, n: Net, losses: seq<nat>, retries: nat)
    returns (before: seq<Move>, ms: seq<Move>, n1: Net)
    requires ValidServer(s) && Going(s, n, retries) && !n.y.loop.stopped
    requires |losses| == Last(s) && Bounded(losses, retries)
    requires n.y.sending == n.y.stored >= 1 ==>
               n.y.stored < Last(s) && n.y.loop.client.badPackets + 1 + losses[n.y.stored] <= retries
    ensures Lossy(s, n, before, retries) && forall m :: m in before ==> m.Vanishes?
    ensures Runs(s, n, before, retries) == Some(n.(flying := multiset{}))
    ensures Lossy(s, n.(flying := multiset{}), ms, retries)
    ensures Runs(s, n.(flying := multiset{}), ms, retries) == Some(n1)
    ensures n1.y.loop.stopped && Result(n1.y.loop) == |s.file| && n1.y.loop.client.stored == s.file
    ensures forall k :: n.y.stored < k < Last(s) ==> Losses(ms, k) == losses[k]
    ensures n.y.sending == n.y.stored ==> Losses(ms, n.y.stored) == losses[n.y.stored]
  {
    hide Going, Step, Can, Tolerated, Last;
    before := AllVanish(s, n, retries);
    var n0 := n.(flying := multiset{});
    LossyRunsAreSafe(s, n, before, retries);
    StillWaits(s, n, retries);
    if n.y.sending == n.y.stored + 1 {
      ms, n1 := Completes(s, n0, losses, retries);
    } else {
      var m, n2 := SendsAgain(s, n0, retries);
      OneMove(s, n0, m, retries);
      var lost, n3 := Loses(s, n2, losses[n.y.stored], retries);
      var rest;
      rest, n1 := AcknowledgedThenCompletes(s, n3, losses, retries);
      RunsOn(s, n2, lost, rest, retries);
      RunsOn(s, n0, [m], lost + rest, retries);
      ms := [m] + (lost + rest);
      forall k
        ensures Losses(ms, k) == Losses(lost, k) + Losses(rest, k)
      {
        LossesAdd([m], lost + rest, k);
        LossesAdd(lost, rest, k);
      }
    }
    GoingIsSafe(s, n1, retries);
  }

  /** In particular, the whole file arrives when each acknowledgement is lost any number of times up to the limit. */
  lemma FileArrives(s: Server, capacity: nat, losses: seq<nat>, retries: nat) returns (ms: seq<Move>, n1: Net)
    requires ValidServer(s) && s.blocksize <= MAX_BLOCKSIZE && |s.file| <= capacity
    requires |losses| == Last(s) && Bounded(losses, retries)
    ensures Lossy(s, Start(s, capacity), ms, retries) && Runs(s, Start(s, capacity), ms, retries) == Some(n1)
    ensures n1.y.loop.stopped && Result(n1.y.loop) == |s.file| && n1.y.loop.client.stored == s.file
    ensures forall k :: 1 <= k < Last(s) ==> Losses(ms, k) == losses[k]
    ensures s.greeting != Data1 ==> Losses(ms, 0) == losses[0]
  {
    hide Last, Lossy, Runs;
    StartGoes(s, capacity, retries);
    var before;
    before, ms, n1 := LossesAreMadeUpFor(s, Start(s, capacity), losses, retries);
  }

  lemma StillWaits(s: Server, n: Net, retries: nat)
    requires ValidServer(s) && Going(s, n, retries) && !n.y.loop.stopped
    ensures Waits(s, n, retries) && (n.y.sending == n.y.stored || n.y.sending == n.y.stored + 1)
  {
    GoingIsSafe(s, n, retries);
  }

  /** The limits are exact: one more repetition of the block stored last, or one more timeout, ends the
      transfer with an error. */
  lemma LimitsAreExact(s: Server, n: Net, timeout: bool, d: Delivery, retries: nat)
    requires ValidServer(s) && Going(s, n, retries) && Can(s, n, Wakes(timeout, d))
    ensures d.Block? && d.n == n.y.stored && n.y.loop.client.badPackets == retries ==>
              var l := Step(s, n, Wakes(timeout, d), retries).y.loop;
              l.stopped && Result(l) == -40
    ensures d.NoPacket? && timeout && n.y.loop.noPackets == retries ==>
              var l := Step(s, n, Wakes(timeout, d), retries).y.loop;
              l.stopped && Result(l) == -41
  {
    hide Wire, Last, Receive;
    if d.Block? && d.n == n.y.stored {
      Offsets(s, d.n);
      StillWaits(s, n, retries);
      BlockArrives(s, n.y.loop.client, d.n, d.n, d.port);
    }
  }
}
