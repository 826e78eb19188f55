/** The TFTP receiver of lib/libnet/tftp.c: what one packet or one timeout does to the client. */
module Tftp {
  import opened Bytes

  const OP_DATA := 3
  const OP_ACK := 4
  const OP_ERROR := 5
  const OP_OACK := 6
  const MAX_BLOCKSIZE := 1428

  /** A UDP packet for the client: source port, TFTP opcode, the 16-bit field behind it, and the rest. */
  datatype Packet = Packet(port: uint16, opcode: int, data: uint16, payload: seq<byte>)

  // ----- blocksize negotiation

  /** "blksize" with its terminating zero. */
  const BLKSIZE: seq<byte> := [0x62, 0x6c, 0x6b, 0x73, 0x69, 0x7a, 0x65, 0x00]

  predicate IsDigit(b: byte) { 0x30 <= b <= 0x39 }

  predicate IsSpace(b: byte) { b == 0x20 || b == 0x09 || b == 0x0a || b == 0x0d }

  /** The digits at the front of `s`, behind `acc`. */
  function Digits(s: seq<byte>, acc: nat): nat {
    if s == [] || !IsDigit(s[0]) then acc else Digits(s[1..], 10 * acc + (s[0] - 0x30))
  }

  /** strtoul with base 10. */
  function Strtoul(s: seq<byte>): nat {
    if s != [] && IsSpace(s[0]) then Strtoul(s[1..]) else Digits(s, 0)
  }

  /** get_blksize on the options of an OACK. The library's strchr never finds the terminating zero, so
      the scan gives up behind the first option. The result is cut to 16 bits, so it does not matter
      that strtoul itself works modulo 2^64. */
  function GetBlksize(options: seq<byte>): uint16 {
    if |options| >= 8 && options[..8] == BLKSIZE then Strtoul(options[8..]) % 0x1_0000 else 0
  }

  const NUL: seq<byte> := [0]

  /** Options as RFC 1782 writes them: name, zero, value, zero. */
  datatype Opt = Opt(name: seq<byte>, value: seq<byte>)

  function PutOptions(opts: seq<Opt>): seq<byte> {
    if opts == [] then [] else opts[0].name + NUL + (opts[0].value + NUL) + PutOptions(opts[1..])
  }

  /** The decimal digits of `n`. */
  function Decimal(n: nat): (s: seq<byte>)
    ensures |s| > 0 && IsDigit(s[0])
  {
    if n < 10 then [0x30 + n] else Decimal(n / 10) + [0x30 + n % 10]
  }

  lemma {:induction false} DigitsOfDecimal(n: nat, rest: seq<byte>)
    ensures Digits(Decimal(n) + rest, 0) == Digits(rest, n)
  {
    if n < 10 {
      assert (Decimal(n) + rest)[1..] == rest;
    } else {
      var last: seq<byte> := [0x30 + n % 10];
      assert Decimal(n) + rest == Decimal(n / 10) + (last + rest);
      DigitsOfDecimal(n / 10, last + rest);
      assert (last + rest)[1..] == rest;
    }
  }

  lemma FirstName(name: seq<byte>, rest: seq<byte>)
    requires 0 !in name && |name| + 1 + |rest| >= 8 && (name + NUL + rest)[..8] == BLKSIZE
    ensures name == BLKSIZE[..7]
  {
    var o := name + NUL + rest;
    var key := BLKSIZE;
    assert forall i :: 0 <= i < 8 ==> o[i] == key[i];
    assert o[|name|] == 0 && key[7] == 0;
    assert key[0] != 0 && key[1] != 0 && key[2] != 0 && key[3] != 0 && key[4] != 0 && key[5] != 0 && key[6] != 0;
    assert forall i :: 0 <= i < |name| ==> o[i] == name[i] != 0;
    assert |name| == 7;
  }

  lemma ReadFirst(n: nat, tail: seq<byte>)
    requires n < 0x1_0000
    ensures GetBlksize(BLKSIZE[..7] + NUL + (Decimal(n) + NUL + tail)) == n
  {
    var key := BLKSIZE;
    assert key[..7] + NUL + (Decimal(n) + NUL + tail) == key + (Decimal(n) + (NUL + tail));
    SplitAt(key, Decimal(n) + (NUL + tail));
    DigitsOfDecimal(n, NUL + tail);
  }

  /** The server's block size is understood exactly when blksize is the first option it acknowledges;
      behind any other option it reads as 0, which the client treats as a failed negotiation. */
  lemma BlksizeMustComeFirst(opts: seq<Opt>, n: nat, before: nat)
    requires n < 0x1_0000 && before < |opts|
    requires opts[before] == Opt(BLKSIZE[..7], Decimal(n))
    requires forall i :: 0 <= i < |opts| ==> 0 !in opts[i].name && 0 !in opts[i].value
    requires forall i :: 0 <= i < before ==> opts[i].name != BLKSIZE[..7]
    ensures before == 0 ==> GetBlksize(PutOptions(opts)) == n
    ensures before > 0 ==> GetBlksize(PutOptions(opts)) == 0
  {
    var name, value := opts[0].name, opts[0].value;
    var tail := PutOptions(opts[1..]);
    assert PutOptions(opts) == name + NUL + (value + NUL + tail);
    if before == 0 {
      ReadFirst(n, tail);
    } else if |PutOptions(opts)| >= 8 && PutOptions(opts)[..8] == BLKSIZE {
      FirstName(name, value + NUL + tail);
    }
  }

  // ----- the client

  /** `stored` is buffer[..received_len], `capacity` the buffer's length, `port` the 16-bit signed
      port_number (-1 before the first packet). */
  datatype Client = Client(
    stored: seq<byte>, capacity: nat, block: uint16, blocksize: uint16, hugeLoad: bool,
    finished: bool, errno: int, badPackets: nat, lostPackets: nat, port: int)

  function Start(capacity: nat): Client {
    Client([], capacity, 0, 512, true, false, 0, 0, 0, -1)
  }

  function Signed16(v: uint16): int { if v < 0x8000 then v else v - 0x1_0000 }

  function Fail(c: Client, errno: int): Client { c.(errno := errno, finished := true) }

  function ErrorCode(data: uint16): int {
    match data % 0x100
    case 1 => -3
    case 2 => -4
    case 4 => -5
    case 5 => -6
    case 7 => -7
    case _ => -1
  }

  /** The block number is the next one, or wraps from 0xffff to 0 or 1. */
  predicate Expected(c: Client, data: uint16) {
    c.block + 1 == data || (c.block == 0xffff && c.hugeLoad && (data == 0 || data == 1))
  }

  /** A data packet with the expected number: stored and acknowledged, or rejected if it does not fit. */
  function Accept(c: Client, data: uint16, payload: seq<byte>): (Client, seq<uint16>) {
    var c1 := c.(block := data, badPackets := 0);
    if |c.stored| + |payload| > c.capacity then (Fail(c1, -2), [])
    else
      var c2 := c1.(stored := c.stored + payload);
      if |payload| < c.blocksize then (c2.(finished := true), [data])
      else if data == 0xffff && !c.hugeLoad then (Fail(c2, -9), [data])
      else (c2, [data])
  }

  /** handle_tftp: the new client and the block numbers it acknowledges. */
  function Receive(c: Client, p: Packet): (Client, seq<uint16>) {
    var c0 := c.(port := Signed16(p.port));
    if p.opcode == OP_OACK then
      var size := GetBlksize(Be16(p.data) + p.payload);
      if size == 0 || size > MAX_BLOCKSIZE then (Fail(c0.(blocksize := size), -8), [])
      else (c0.(blocksize := size), [0])
    else if p.opcode == OP_ACK then (c0.(blocksize := 512), [0])
    else if p.opcode % 0x100 == OP_ERROR then (Fail(c0, ErrorCode(p.data)), [])
    else if p.opcode == OP_DATA then
      if Expected(c, p.data) then Accept(c0, p.data, p.payload)
      else if p.data == c.block then
        (c0.(lostPackets := c.lostPackets + 1, badPackets := c.badPackets + 1), [p.data])
      else if p.data < c.block then (c0.(badPackets := c.badPackets + 1), [])
      else (Fail(c0, -42), [])
    else (c0.(badPackets := c.badPackets + 1), [])
  }

  /** A timeout of the main loop: it repeats the last acknowledgement once the transfer runs. */
  function Timeout(c: Client, noPackets: nat): seq<uint16> {
    if noPackets > 4 && c.port != -1 && c.block > 1 then [c.block] else []
  }

  /** What receive_ether delivers in one turn of the main loop. */
  datatype Arrival = Nothing | Unreachable(code: byte) | Udp(packet: Packet)

  datatype Turn = Turn(timeout: bool, arrival: Arrival)

  datatype Loop = Loop(client: Client, noPackets: nat, stopped: bool)

  /** What tftp returns: an error, or the number of bytes received. */
  function Result(l: Loop): int { if l.client.errno != 0 then l.client.errno else |l.client.stored| }

  function Arrive(c: Client, a: Arrival): (Client, seq<uint16>) {
    match a
    case Nothing => (c, [])
    case Unreachable(code) => (Fail(c, -(code as int) - 10), [])
    case Udp(p) => Receive(c, p)
  }

  /** The tests at the end of a turn: too many unexpected packets, or too many timeouts. */
  function GiveUp(c: Client, noPackets: nat, retries: nat): Loop {
    if c.badPackets > retries then Loop(c.(errno := -40), noPackets, true)
    else if noPackets > retries then Loop(c.(errno := -41), noPackets, true)
    else Loop(c, noPackets, c.finished)
  }

  /** One turn of the main loop and the acknowledgements it sends. */
  function TakeTurn(l: Loop, t: Turn, retries: nat): (Loop, seq<uint16>) {
    var repeated := if t.timeout then Timeout(l.client, l.noPackets) else [];
    var noPackets := if t.timeout then l.noPackets + 1 else l.noPackets;
    var (c, acks) := Arrive(l.client, t.arrival);
    (GiveUp(c, noPackets, retries), repeated + acks)
  }

  /** The main loop over the turns the environment offers. */
  function RunLoop(l: Loop, turns: seq<Turn>, retries: nat): (Loop, seq<uint16>)
    decreases |turns|
  {
    if turns == [] || l.stopped then (l, [])
    else
      var (l1, acks) := TakeTurn(l, turns[0], retries);
      var (l2, more) := RunLoop(l1, turns[1..], retries);
      (l2, acks + more)
  }
}
