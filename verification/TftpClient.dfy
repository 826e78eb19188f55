/** The TFTP client of lib/libnet/tftp.c in its own form: module state that each packet updates and a
    receive buffer that is filled in place. */
module TftpClient {
  import opened Bytes
  import opened Tftp

  class Receiver {
    var buffer: array<byte>
    var block: uint16
    var blocksize: uint16
    var receivedLen: nat
    var hugeLoad: bool
    var finished: bool
    var errno: int
    var badPackets: nat
    var lostPackets: nat
    var port: int
    /** The block numbers send_ack was called with. */
    var acks: seq<uint16>

    ghost predicate Valid()
      reads this
    {
      receivedLen <= buffer.Length
    }

    ghost function State(): Client
      requires Valid()
      reads this, buffer
    {
      Client(buffer[..receivedLen], buffer.Length, block, blocksize, hugeLoad, finished, errno, badPackets,
             lostPackets, port)
    }

    constructor (buffer: array<byte>)
      ensures Valid() && this.buffer == buffer && acks == []
      ensures State() == Start(buffer.Length)
    {
      this.buffer := buffer;
      block, receivedLen, blocksize, hugeLoad := 0, 0, 512, true;
      finished, errno, badPackets, lostPackets, port, acks := false, 0, 0, 0, -1, [];
    }

    method SendAck(number: uint16)
      modifies this`acks
      ensures acks == old(acks) + [number]
    {
      acks := acks + [number];
    }

    method SetError(code: int)
      modifies this`errno, this`finished
      ensures errno == code && finished
    {
      errno, finished := code, true;
    }

    /** The end of the DATA case of handle_tftp, behind the update of `block`. */
    method StoreBlock(payload: seq<byte>)
      requires Valid()
      modifies this, buffer
      ensures Valid() && buffer == old(buffer)
      ensures (State(), acks) ==
              (Accept(old(State()), old(block), payload).0, old(acks) + Accept(old(State()), old(block), payload).1)
    {
      assert acks + [] == acks;
      badPackets := 0;
      if receivedLen + |payload| > buffer.Length {
        SetError(-2);
        return;
      }
      Store(buffer, receivedLen, payload);
      assert buffer[..receivedLen + |payload|] == old(buffer[..receivedLen]) + payload;
      SendAck(block);
      receivedLen := receivedLen + |payload|;
      if |payload| < blocksize {
        finished := true;
        return;
      }
      if block >= 0xffff && !hugeLoad {
        SetError(-9);
        return;
      }
    }

    /** handle_tftp. */
    method HandleTftp(p: Packet)
      requires Valid()
      modifies this, buffer
      ensures Valid() && buffer == old(buffer)
      ensures (State(), acks) ==
              (Receive(old(State()), p).0, old(acks) + Receive(old(State()), p).1)
    {
      hide GetBlksize, ErrorCode;
      assert acks + [] == acks;
      port := Signed16(p.port);
      if p.opcode == OP_OACK {
        blocksize := GetBlksize(Be16(p.data) + p.payload);
        if blocksize == 0 || blocksize > MAX_BLOCKSIZE {
          SetError(-8);
          return;
        }
        SendAck(0);
      } else if p.opcode == OP_ACK {
        blocksize := 512;
        SendAck(0);
      } else if p.opcode % 0x100 == OP_ERROR {
        SetError(ErrorCode(p.data));
      } else if p.opcode == OP_DATA {
        if block + 1 == p.data {
          block := block + 1;
        } else if block == 0xffff && hugeLoad && (p.data == 0 || p.data == 1) {
          block := p.data;
        } else if p.data == block {
          SendAck(p.data);
          lostPackets, badPackets := lostPackets + 1, badPackets + 1;
          return;
        } else if p.data < block {
          badPackets := badPackets + 1;
          return;
        } else {
          SetError(-42);
          return;
        }
        StoreBlock(p.payload);
      } else {
        badPackets := badPackets + 1;
      }
    }

    /** handle_tftp_dun. */
    method HandleUnreachable(code: byte)
      requires Valid()
      modifies this`errno, this`finished
      ensures Valid() && State() == Fail(old(State()), -(code as int) - 10)
    {
      errno, finished := -(code as int) - 10, true;
    }

    /** The main loop of tftp over the turns the environment offers; `stopped` tells whether the loop
        ended by itself. */
    method MainLoop(turns: seq<Turn>, retries: nat) returns (result: int, stopped: bool)
      requires Valid() && State() == Start(buffer.Length) && acks == []
      modifies this, buffer
      ensures Valid() && buffer == old(buffer)
      ensures var (l, sent) := RunLoop(Loop(Start(buffer.Length), 0, false), turns, retries);
              && State() == l.client && stopped == l.stopped && acks == sent
              && result == Result(l)
    {
      hide Receive, TakeTurn;
      var noPackets, i := 0, 0;
      stopped := false;
      ghost var first := Loop(Start(buffer.Length), 0, false);
      assert turns[0..] == turns;
      assert [] + RunLoop(first, turns, retries).1 == RunLoop(first, turns, retries).1;
      while i < |turns| && !stopped
        invariant Valid() && buffer == old(buffer) && 0 <= i <= |turns|
        invariant var (l, sent) := RunLoop(Loop(State(), noPackets, stopped), turns[i..], retries);
                  RunLoop(first, turns, retries) == (l, acks + sent)
      {
        ghost var before, soFar := Loop(State(), noPackets, stopped), acks;
        stopped, noPackets := OneTurn(turns[i], noPackets, retries);
        assert turns[i..][1..] == turns[i + 1..];
        ghost var step := TakeTurn(before, turns[i], retries);
        ghost var sent := RunLoop(step.0, turns[i + 1..], retries).1;
        assert soFar + (step.1 + sent) == soFar + step.1 + sent;
        i := i + 1;
      }
      assert acks + [] == acks;
      result := if errno != 0 then errno else receivedLen;
    }

    method OneTurn(t: Turn, noPacketsSoFar: nat, retries: nat) returns (stopped: bool, noPackets: nat)
      requires Valid()
      modifies this, buffer
      ensures Valid() && buffer == old(buffer)
      ensures var (l, sent) := TakeTurn(Loop(old(State()), noPacketsSoFar, false), t, retries);
              Loop(State(), noPackets, stopped) == l && acks == old(acks) + sent
    {
      hide Receive;
      noPackets := noPacketsSoFar;
      if t.timeout {
        if noPackets > 4 && port != -1 && block > 1 {
          SendAck(block);
        }
        noPackets := noPackets + 1;
      }
      ghost var repeated := if t.timeout then Timeout(old(State()), noPacketsSoFar) else [];
      assert acks == old(acks) + repeated;
      match t.arrival {
        case Nothing =>
        case Unreachable(code) => HandleUnreachable(code);
        case Udp(p) => HandleTftp(p);
      }
      assert acks == old(acks) + (repeated + Arrive(old(State()), t.arrival).1);
      if badPackets > retries {
        errno, stopped := -40, true;
      } else if noPackets > retries {
        errno, stopped := -41, true;
      } else {
        stopped := finished;
      }
    }
  }
}
