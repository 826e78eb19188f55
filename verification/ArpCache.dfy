/** The ARP table of lib/libnet/ipv4.c as a first-in-first-out cache. */
module ArpCache {
  import opened Bytes

  type Mac = x: int | 0 <= x < 0x1_0000_0000_0000

  /** One slot of the ring is never used. */
  const ARP_ENTRIES := 10
  const CAPACITY := 9

  /** An entry: its address, its MAC address (0: not resolved yet), and whether a packet waits for it. */
  datatype Entry = Entry(ip: uint32, mac: Mac, pending: bool)

  /** The live entries, oldest first, and the next hop of the packet in the one buffer for waiting packets. */
  datatype Cache = Cache(live: seq<Entry>, frame: uint32)

  /** What becomes of a packet: sent to a MAC address, dropped, or stored until the reply comes. */
  datatype Outcome = Sent(mac: Mac) | Dropped | Stored

  /** What happens to the table: a packet for a next hop, or an ARP reply for us. */
  datatype Event = Send(ip: uint32) | Reply(ip: uint32, mac: Mac)

  function Lookup(live: seq<Entry>, ip: uint32): (r: Option<nat>)
    ensures r.Some? ==> r.value < |live| && live[r.value].ip == ip
    ensures forall i :: 0 <= i < (if r.Some? then r.value else |live|) ==> live[i].ip != ip
  {
    if live == [] then None
    else if live[0].ip == ip then Some(0)
    else
      match Lookup(live[1..], ip)
      case None => None
      case Some(i) => Some(i + 1)
  }

  /** A new entry goes behind the others; a full table loses its oldest one. */
  function Insert(live: seq<Entry>, e: Entry): seq<Entry> {
    (if |live| == CAPACITY then live[1..] else live) + [e]
  }

  function SendIn(c: Cache, ip: uint32): (Cache, Outcome) {
    match Lookup(c.live, ip)
    case None => (Cache(Insert(c.live, Entry(ip, 0, true)), ip), Stored)
    case Some(k) => (c, if c.live[k].mac != 0 then Sent(c.live[k].mac) else Dropped)
  }

  /** An ARP reply: the new cache, whether it was accepted, and the next hop of the packet it releases. */
  function ReplyIn(c: Cache, ip: uint32, mac: Mac): (Cache, bool, Option<uint32>) {
    match Lookup(c.live, ip)
    case None => (c, false, None)
    case Some(k) =>
      var e := c.live[k];
      if ip == 0 || e.mac != 0 then (c, false, None)
      else (c.(live := c.live[k := Entry(ip, mac, false)]), true, if e.pending then Some(c.frame) else None)
  }

  function Step(c: Cache, e: Event): Cache {
    match e
    case Send(ip) => SendIn(c, ip).0
    case Reply(ip, mac) => ReplyIn(c, ip, mac).0
  }

  function Run(c: Cache, es: seq<Event>): Cache
    decreases |es|
  {
    if es == [] then c else Run(Step(c, es[0]), es[1..])
  }

  /** At most nine entries, pairwise distinct addresses, and the waiting packet is that of the newest entry. */
  predicate Inv(c: Cache) {
    && |c.live| <= CAPACITY
    && (forall i, j :: 0 <= i < j < |c.live| ==> c.live[i].ip != c.live[j].ip)
    && (c.live != [] ==> c.live[|c.live| - 1].ip == c.frame)
  }

  lemma StepKeepsInv(c: Cache, e: Event)
    requires Inv(c)
    ensures Inv(Step(c, e))
  {
    hide Lookup;
    match e
    case Send(ip) =>
      var live1 := Insert(c.live, Entry(ip, 0, true));
      var drop := if |c.live| == CAPACITY then 1 else 0;
      assert forall i :: 0 <= i < |live1| - 1 ==> live1[i] == c.live[i + drop];
    case Reply(ip, mac) =>
  }

  lemma {:induction false} RunKeepsInv(c: Cache, es: seq<Event>)
    requires Inv(c)
    ensures Inv(Run(c, es))
    decreases |es|
  {
    if es != [] {
      StepKeepsInv(c, es[0]);
      RunKeepsInv(Step(c, es[0]), es[1..]);
    }
  }

  /** A lookup finds exactly the live entry of an address. */
  lemma LookupIsExact(c: Cache, ip: uint32, k: nat)
    requires Inv(c) && k < |c.live|
    ensures Lookup(c.live, ip) == Some(k) <==> c.live[k].ip == ip
  {
  }

  // ----- resolved entries stay

  /** The number of entries an event evicts. */
  function Evicted(c: Cache, e: Event): nat {
    if e.Send? && Lookup(c.live, e.ip).None? && |c.live| == CAPACITY then 1 else 0
  }

  function EvictedBy(c: Cache, es: seq<Event>): nat
    decreases |es|
  {
    if es == [] then 0 else Evicted(c, es[0]) + EvictedBy(Step(c, es[0]), es[1..])
  }

  lemma StepKeepsResolved(c: Cache, e: Event, k: nat)
    requires Inv(c) && k < |c.live| && c.live[k].mac != 0 && k >= Evicted(c, e)
    ensures var k1 := k - Evicted(c, e); k1 < |Step(c, e).live| && Step(c, e).live[k1] == c.live[k]
  {
  }

  /** Eviction is first in, first out, and a resolved MAC address does not change while its entry stays: after
      any events the entry is where the evictions have moved it, unchanged, or it is one of the evicted. */
  lemma {:induction false} RunKeepsResolved(c: Cache, es: seq<Event>, k: nat)
    requires Inv(c) && k < |c.live| && c.live[k].mac != 0 && k >= EvictedBy(c, es)
    ensures var k1 := k - EvictedBy(c, es); k1 < |Run(c, es).live| && Run(c, es).live[k1] == c.live[k]
    decreases |es|
  {
    hide Inv, Step, Evicted;
    if es != [] {
      StepKeepsInv(c, es[0]);
      StepKeepsResolved(c, es[0], k);
      RunKeepsResolved(Step(c, es[0]), es[1..], k - Evicted(c, es[0]));
    }
  }

  /** The entries that events add. */
  function Inserted(c: Cache, es: seq<Event>): nat
    decreases |es|
  {
    if es == [] then 0
    else (if es[0].Send? && Lookup(c.live, es[0].ip).None? then 1 else 0) + Inserted(Step(c, es[0]), es[1..])
  }

  lemma {:induction false} AbsentStaysAbsent(c: Cache, es: seq<Event>, ip: uint32)
    requires Lookup(c.live, ip).None? && Send(ip) !in es
    ensures Lookup(Run(c, es).live, ip).None?
    decreases |es|
  {
    if es != [] {
      AbsentStep(c, es[0], ip);
      AbsentStaysAbsent(Step(c, es[0]), es[1..], ip);
    }
  }

  lemma AbsentStep(c: Cache, e: Event, ip: uint32)
    requires Lookup(c.live, ip).None? && e != Send(ip)
    ensures Lookup(Step(c, e).live, ip).None?
  {
    hide Lookup;
  }

  /** The capacity is exact: an address that is not asked for again stays in the table exactly as long as fewer
      than nine entries were added behind it. */
  lemma {:induction false} StaysForEight(c: Cache, es: seq<Event>, k: nat)
    requires Inv(c) && k < |c.live| && Send(c.live[k].ip) !in es
    ensures Lookup(Run(c, es).live, c.live[k].ip).Some? <==> (|c.live| - 1 - k) + Inserted(c, es) < 9
    decreases |es|
  {
    hide Lookup;
    if es == [] {
      LookupIsExact(c, c.live[k].ip, k);
    } else {
      StepKeepsInv(c, es[0]);
      var c1 := Step(c, es[0]);
      if k < Evicted(c, es[0]) {
        GoneWhenEvicted(c, es[0]);
        AbsentStaysAbsent(c1, es[1..], c.live[0].ip);
      } else {
        Moves(c, es[0], k);
        StaysForEight(c1, es[1..], k - Evicted(c, es[0]));
      }
    }
  }

  lemma GoneWhenEvicted(c: Cache, e: Event)
    requires Inv(c) && Evicted(c, e) == 1
    ensures c.live != [] && Lookup(Step(c, e).live, c.live[0].ip).None?
  {
    hide Lookup;
    var live1 := Step(c, e).live;
    assert forall i :: 0 <= i < |live1| - 1 ==> live1[i] == c.live[i + 1];
  }

  lemma Moves(c: Cache, e: Event, k: nat)
    requires Inv(c) && k < |c.live| && k >= Evicted(c, e)
    ensures var k1 := k - Evicted(c, e); k1 < |Step(c, e).live| && Step(c, e).live[k1].ip == c.live[k].ip
    ensures |Step(c, e).live| == |c.live| - Evicted(c, e)
                                 + if e.Send? && Lookup(c.live, e.ip).None? then 1 else 0
  {
    hide Lookup;
  }

  // ----- MAC addresses come from replies

  /** Every resolved entry has the MAC address of a reply for its address. */
  predicate Heard(c: Cache, es: seq<Event>) {
    forall i :: 0 <= i < |c.live| && c.live[i].mac != 0 ==> Reply(c.live[i].ip, c.live[i].mac) in es
  }

  lemma {:induction false} RunHeard(c: Cache, before: seq<Event>, es: seq<Event>)
    requires Heard(c, before)
    ensures Heard(Run(c, es), before + es)
    decreases |es|
  {
    if es == [] {
      assert before + [] == before;
    } else {
      StepHeard(c, before, es[0]);
      RunHeard(Step(c, es[0]), before + [es[0]], es[1..]);
      assert before + [es[0]] + es[1..] == before + es;
    }
  }

  lemma StepHeard(c: Cache, before: seq<Event>, e: Event)
    requires Heard(c, before)
    ensures Heard(Step(c, e), before + [e])
  {
    hide Lookup;
  }

  /** No MAC address is made up: a packet is only sent to a MAC address that a reply gave for its next hop. */
  lemma SentIsHeard(es: seq<Event>, ip: uint32)
    ensures var r := SendIn(Run(Cache([], 0), es), ip).1; r.Sent? ==> r.mac != 0 && Reply(ip, r.mac) in es
  {
    hide Run;
    RunHeard(Cache([], 0), [], es);
    assert [] + es == es;
  }

  /** And an accepted reply is used: every later packet for that host is sent to its MAC address until the entry
      is evicted. */
  lemma ReplyIsUsed(c: Cache, ip: uint32, mac: Mac, es: seq<Event>)
    requires Inv(c) && ReplyIn(c, ip, mac).1 && mac != 0
    ensures var c1 := ReplyIn(c, ip, mac).0;
            EvictedBy(c1, es) <= Lookup(c.live, ip).value ==> SendIn(Run(c1, es), ip).1 == Sent(mac)
  {
    hide Lookup, Run;
    var c1, k := ReplyIn(c, ip, mac).0, Lookup(c.live, ip).value;
    StepKeepsInv(c, Reply(ip, mac));
    if EvictedBy(c1, es) <= k {
      RunKeepsInv(c1, es);
      RunKeepsResolved(c1, es, k);
      LookupIsExact(Run(c1, es), ip, k - EvictedBy(c1, es));
    }
  }

  // ----- the waiting packet

  /** A reply releases the packet in the buffer, which is the packet for the replying host exactly if its entry
      is the newest one. */
  lemma ReleasedPacket(c: Cache, ip: uint32, mac: Mac)
    requires Inv(c) && ReplyIn(c, ip, mac).2.Some?
    ensures ReplyIn(c, ip, mac).2 == Some(ip) <==> Lookup(c.live, ip) == Some(|c.live| - 1)
  {
    hide Lookup;
    var k, last := Lookup(c.live, ip).value, |c.live| - 1;
    assert k < last ==> c.live[k].ip != c.live[last].ip;
  }

  /** So a late reply can send the packet of one host to another: here host 2's goes to host 1. */
  lemma PacketGoesAstray(mac: Mac)
    ensures var c := Run(Cache([], 0), [Send(1), Send(2)]); ReplyIn(c, 1, mac).2 == Some(2)
  {
    var c1 := SendIn(Cache([], 0), 1).0;
    assert c1 == Cache([Entry(1, 0, true)], 1);
    var c2 := SendIn(c1, 2).0;
    assert c2 == Cache([Entry(1, 0, true), Entry(2, 0, true)], 2);
    assert Lookup(c2.live, 1) == Some(0);
    assert [Send(1), Send(2)][1..] == [Send(2)] && [Send(2)][1..] == [];
    assert Run(c1, [Send(2)]) == Run(c2, []) == c2;
  }
}
