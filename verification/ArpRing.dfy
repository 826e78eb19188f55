/** The ARP table in its own form: a ring of entries between a consumer and a producer index. */
module ArpRing {
  import opened Bytes
  import opened ArpCache

  /** The slot `k` places behind slot `c`. */
  function Slot(c: nat, k: nat): (s: nat)
    requires c < ARP_ENTRIES && k <= ARP_ENTRIES
    ensures s < ARP_ENTRIES
  {
    if c + k < ARP_ENTRIES then c + k else c + k - ARP_ENTRIES
  }

  lemma SlotIsRemainder(c: nat, k: nat)
    requires c < ARP_ENTRIES && k <= ARP_ENTRIES
    ensures Slot(c, k) == (c + k) % ARP_ENTRIES
  {
  }

  /** The number of entries from slot `c` up to slot `p`. */
  function Size(c: nat, p: nat): (n: nat)
    requires c < ARP_ENTRIES && p < ARP_ENTRIES
    ensures n < ARP_ENTRIES
  {
    if c <= p then p - c else p + ARP_ENTRIES - c
  }

  function Window(ring: seq<Entry>, c: nat, p: nat): (w: seq<Entry>)
    requires |ring| == ARP_ENTRIES && c < ARP_ENTRIES && p < ARP_ENTRIES
    ensures |w| == Size(c, p)
    ensures forall k :: 0 <= k < |w| ==> w[k] == ring[Slot(c, k)]
  {
    seq<Entry>(Size(c, p), k requires 0 <= k < Size(c, p) => ring[Slot(c, k)])
  }

  lemma WindowInsert(ring: seq<Entry>, c: nat, p: nat, e: Entry)
    requires |ring| == ARP_ENTRIES && c < ARP_ENTRIES && p < ARP_ENTRIES
    ensures var p1 := Slot(p, 1);
            var c1 := if c == p1 then Slot(c, 1) else c;
            Window(ring[p := e], c1, p1) == ArpCache.Insert(Window(ring, c, p), e)
  {
    hide Window;
    var p1 := Slot(p, 1);
    var c1 := if c == p1 then Slot(c, 1) else c;
    var w, w1 := ArpCache.Insert(Window(ring, c, p), e), Window(ring[p := e], c1, p1);
    assert |w| == |w1|;
    assert forall k :: 0 <= k < |w1| ==> w1[k] == w[k];
  }

  lemma WindowUpdate(ring: seq<Entry>, c: nat, p: nat, k: nat, e: Entry)
    requires |ring| == ARP_ENTRIES && c < ARP_ENTRIES && p < ARP_ENTRIES && k < Size(c, p)
    ensures Window(ring[Slot(c, k) := e], c, p) == Window(ring, c, p)[k := e]
  {
  }

  class Table {
    const entries: array<Entry>
    var consumer: nat
    var producer: nat
    var frame: uint32

    ghost predicate Valid()
      reads this
    {
      entries.Length == ARP_ENTRIES && consumer < ARP_ENTRIES && producer < ARP_ENTRIES
    }

    /** The entries from the consumer to the producer. */
    ghost function Contents(): (c: Cache)
      requires Valid()
      reads this, entries
    {
      Cache(Window(entries[..], consumer, producer), frame)
    }

    /** ipv4_init. */
    constructor ()
      ensures Valid() && fresh(entries) && Contents() == Cache([], 0)
    {
      consumer, producer, frame := 0, 0, 0;
      entries := new Entry[ARP_ENTRIES](_ => Entry(0, 0, false));
    }

    /** The search loop of lookup_mac_addr and handle_arp: it ends at the producer if there is no such entry. */
    method Find(ip: uint32) returns (i: nat)
      requires Valid()
      ensures i < ARP_ENTRIES
      ensures match ArpCache.Lookup(Contents().live, ip)
              case None => i == producer
              case Some(k) => i == Slot(consumer, k) && i != producer && entries[i] == Contents().live[k]
    {
      hide ArpCache.Lookup, Window;
      i := consumer;
      ghost var k, live := 0, Contents().live;
      while i != producer
        invariant 0 <= k <= |live| && i == Slot(consumer, k)
        invariant forall j :: 0 <= j < k ==> live[j].ip != ip
        decreases |live| - k
      {
        assert k < |live| && live[k] == entries[..][i];
        if entries[i].ip == ip {
          return;
        }
        SlotIsRemainder(i, 1);
        i := (i + 1) % ARP_ENTRIES;
        k := k + 1;
      }
      assert k == |live|;
    }

    /** The part of send_ipv4 that resolves a next hop. */
    method SendTo(ip: uint32) returns (outcome: Outcome)
      requires Valid() && ArpCache.Inv(Contents())
      modifies this, entries
      ensures Valid() && ArpCache.Inv(Contents())
      ensures (Contents(), outcome) == SendIn(old(Contents()), ip)
    {
      hide ArpCache.Lookup, ArpCache.Inv, ArpCache.Insert, Window;
      ghost var c, ring, c0, p0 := Contents(), entries[..], consumer, producer;
      ArpCache.StepKeepsInv(c, Send(ip));
      var i := Find(ip);
      if i != producer {
        outcome := if entries[i].mac != 0 then Sent(entries[i].mac) else Dropped;
        return;
      }
      SlotIsRemainder(producer, 1);
      SlotIsRemainder(consumer, 1);
      producer := (producer + 1) % ARP_ENTRIES;
      if consumer == producer {
        consumer := (consumer + 1) % ARP_ENTRIES;
      }
      entries[i] := Entry(ip, 0, true);
      frame := ip;
      outcome := Stored;
      WindowInsert(ring, c0, p0, Entry(ip, 0, true));
      assert entries[..] == ring[i := Entry(ip, 0, true)];
    }

    /** The reply branch of handle_arp; the packet that is released is the one in the buffer. */
    method HandleReply(ip: uint32, mac: Mac) returns (accepted: bool, released: Option<uint32>)
      requires Valid() && ArpCache.Inv(Contents())
      modifies entries
      ensures Valid() && ArpCache.Inv(Contents())
      ensures (Contents(), accepted, released) == ReplyIn(old(Contents()), ip, mac)
    {
      hide ArpCache.Lookup, ArpCache.Inv, Window;
      ghost var c, ring := Contents(), entries[..];
      ArpCache.StepKeepsInv(c, Reply(ip, mac));
      accepted, released := false, None;
      if ip == 0 {
        return;
      }
      var i := Find(ip);
      if i == producer || entries[i].mac != 0 {
        return;
      }
      var e := entries[i].(mac := mac);
      if e.pending {
        released := Some(frame);
        e := e.(pending := false);
      }
      entries[i] := e;
      accepted := true;
      WindowUpdate(ring, consumer, producer, ArpCache.Lookup(c.live, ip).value, Entry(ip, mac, false));
      assert entries[..] == ring[i := Entry(ip, mac, false)];
    }
  }
}
