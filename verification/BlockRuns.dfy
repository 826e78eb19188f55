/** The free blocks of a region, and what allocation and release do to them: the specification of
    slof/allocator.c. */
module BlockRuns {
  import opened Bytes

  /** For every block of the region whether it is free, and the count that the allocator keeps. */
  datatype State = State(bits: seq<bool>, free: int)

  function Count(bits: seq<bool>): (n: nat)
    ensures n <= |bits|
  {
    if bits == [] then 0 else (if bits[0] then 1 else 0) + Count(bits[1..])
  }

  /** A run of `n` free blocks starts at `i`; a run of 0 blocks starts at any free block. */
  predicate RunAt(bits: seq<bool>, i: nat, n: nat) {
    i < |bits| && bits[i] && i + n <= |bits| && forall k :: i <= k < i + n ==> bits[k]
  }

  /** The lowest run from `i` on. */
  function LowestFrom(bits: seq<bool>, i: nat, n: nat): (r: Option<nat>)
    ensures r.Some? ==> i <= r.value && RunAt(bits, r.value, n)
    ensures forall k :: i <= k < (if r.Some? then r.value else |bits|) ==> !RunAt(bits, k, n)
    decreases |bits| - i
  {
    if i >= |bits| then None else if RunAt(bits, i, n) then Some(i) else LowestFrom(bits, i + 1, n)
  }

  function Lowest(bits: seq<bool>, n: nat): Option<nat> { LowestFrom(bits, 0, n) }

  /** The blocks `i` to `i + n` set to `v`. */
  function SetRun(bits: seq<bool>, i: nat, n: nat, v: bool): (r: seq<bool>)
    ensures |r| == |bits| && forall k :: 0 <= k < |bits| ==> r[k] == if i <= k < i + n then v else bits[k]
  {
    seq(|bits|, k requires 0 <= k < |bits| => if i <= k < i + n then v else bits[k])
  }

  /** SLOF_bm_alloc of `n` blocks. */
  function AllocIn(s: State, n: nat): (State, Option<nat>) {
    match Lowest(s.bits, n)
    case None => (s, None)
    case Some(i) => (State(SetRun(s.bits, i, n, false), s.free - n), Some(i))
  }

  /** SLOF_bm_free of `n` blocks at `i`. */
  function FreeIn(s: State, i: nat, n: nat): State { State(SetRun(s.bits, i, n, true), s.free + n) }

  // ----- counting

  lemma {:induction false} CountAppends(a: seq<bool>, b: seq<bool>)
    ensures Count(a + b) == Count(a) + Count(b)
  {
    if a == [] {
      assert a + b == b;
    } else {
      assert (a + b)[1..] == a[1..] + b && (a + b)[0] == a[0];
      CountAppends(a[1..], b);
    }
  }

  lemma {:induction false} CountAll(bits: seq<bool>, v: bool)
    requires forall k :: 0 <= k < |bits| ==> bits[k] == v
    ensures Count(bits) == if v then |bits| else 0
  {
    if bits != [] { CountAll(bits[1..], v); }
  }

  /** Changing a run of equal bits changes the count by its length. */
  lemma CountSetRun(bits: seq<bool>, i: nat, n: nat, v: bool)
    requires i + n <= |bits| && forall k :: i <= k < i + n ==> bits[k] == !v
    ensures var changed := Count(SetRun(bits, i, n, v));
            if v then changed == Count(bits) + n else changed + n == Count(bits)
  {
    hide Count, SetRun;
    var a, b, c, d := bits[..i], bits[i..i + n], bits[i + n..], seq(n, _ => v);
    Cut(bits, i, n);
    SetRunIs(bits, i, n, v);
    CountThree(a, b, c);
    CountThree(a, d, c);
    assert forall k :: 0 <= k < n ==> b[k] == bits[i + k];
    CountAll(b, !v);
    CountAll(d, v);
  }

  lemma Cut(bits: seq<bool>, i: nat, n: nat)
    requires i + n <= |bits|
    ensures bits == bits[..i] + bits[i..i + n] + bits[i + n..]
  {
  }

  lemma SetRunIs(bits: seq<bool>, i: nat, n: nat, v: bool)
    requires i + n <= |bits|
    ensures SetRun(bits, i, n, v) == bits[..i] + seq(n, _ => v) + bits[i + n..]
  {
  }

  lemma CountThree(a: seq<bool>, b: seq<bool>, c: seq<bool>)
    ensures Count(a + b + c) == Count(a) + Count(b) + Count(c)
  {
    hide Count;
    CountAppends(a + b, c);
    CountAppends(a, b);
  }

  /** A run cannot be longer than the number of free blocks: the early exit of the allocator loses nothing. */
  lemma NoRunBeyondCount(bits: seq<bool>, n: nat)
    requires n > Count(bits)
    ensures Lowest(bits, n) == None
  {
    if Lowest(bits, n).Some? {
      CountSetRun(bits, Lowest(bits, n).value, n, false);
    }
  }

  /** Releasing what was just allocated restores the state exactly. */
  lemma FreeUndoesAlloc(s: State, n: nat)
    ensures AllocIn(s, n).1.Some? ==> FreeIn(AllocIn(s, n).0, AllocIn(s, n).1.value, n) == s
  {
    if Lowest(s.bits, n).Some? {
      var i := Lowest(s.bits, n).value;
      assert SetRun(SetRun(s.bits, i, n, false), i, n, true) == s.bits;
    }
  }

  // ----- runs

  /** A live allocation: its first block and its length in blocks. */
  datatype Live = Live(pos: nat, n: nat)

  predicate Covers(l: Live, i: nat) { l.pos <= i < l.pos + l.n }

  predicate Taken(live: seq<Live>, i: nat) { exists k :: 0 <= k < |live| && Covers(live[k], i) }

  predicate Apart(a: Live, b: Live) { a.pos + a.n <= b.pos || b.pos + b.n <= a.pos }

  /** The live allocations of a run, with the allocator's state: they lie in the region, do not overlap, and a
      block is free exactly if none covers it; the counter is the number of free blocks. */
  predicate Inv(s: State, live: seq<Live>) {
    && s.free == Count(s.bits)
    && (forall k :: 0 <= k < |live| ==> live[k].n >= 1 && live[k].pos + live[k].n <= |s.bits|)
    && (forall j, k :: 0 <= j < k < |live| ==> Apart(live[j], live[k]))
    && (forall i :: 0 <= i < |s.bits| ==> s.bits[i] == !Taken(live, i))
  }

  lemma AllocKeepsInv(s: State, live: seq<Live>, n: nat)
    requires Inv(s, live) && n >= 1
    ensures match AllocIn(s, n).1
            case None => AllocIn(s, n).0 == s && forall i :: 0 <= i ==> !RunAt(s.bits, i, n)
            case Some(i) => Inv(AllocIn(s, n).0, live + [Live(i, n)]) && forall k :: 0 <= k < i ==> !RunAt(s.bits, k, n)
  {
    if Lowest(s.bits, n).Some? {
      var i := Lowest(s.bits, n).value;
      var s1, live1 := AllocIn(s, n).0, live + [Live(i, n)];
      CountSetRun(s.bits, i, n, false);
      forall k | 0 <= k < |live| ensures Apart(live[k], Live(i, n)) {
        NotCovered(s, live, k, i, n);
      }
      forall b | 0 <= b < |s1.bits| ensures s1.bits[b] == !Taken(live1, b) {
        TakenInBoth(live, [Live(i, n)], b);
        TakenByOne(Live(i, n), b);
      }
    }
  }

  lemma TakenInBoth(x: seq<Live>, y: seq<Live>, b: nat)
    ensures Taken(x + y, b) <==> Taken(x, b) || Taken(y, b)
  {
    var z := x + y;
    if Taken(z, b) {
      var k :| 0 <= k < |z| && Covers(z[k], b);
      assert k < |x| ==> Covers(x[k], b);
      assert k >= |x| ==> Covers(y[k - |x|], b);
    }
    if Taken(x, b) {
      var k :| 0 <= k < |x| && Covers(x[k], b);
      assert Covers(z[k], b);
    }
    if Taken(y, b) {
      var k :| 0 <= k < |y| && Covers(y[k], b);
      assert Covers(z[|x| + k], b);
    }
  }

  lemma TakenByOne(l: Live, b: nat)
    ensures Taken([l], b) <==> Covers(l, b)
  {
    assert [l][0] == l;
  }

  lemma NotCovered(s: State, live: seq<Live>, k: nat, i: nat, n: nat)
    requires Inv(s, live) && k < |live| && RunAt(s.bits, i, n) && n >= 1
    ensures Apart(live[k], Live(i, n))
  {
    var b := if live[k].pos < i then i else live[k].pos;
    if b < |s.bits| && Covers(live[k], b) {
      assert Taken(live, b);
      assert !s.bits[b];
    }
  }

  lemma FreeKeepsInv(s: State, live: seq<Live>, k: nat)
    requires Inv(s, live) && k < |live|
    ensures Inv(FreeIn(s, live[k].pos, live[k].n), live[..k] + live[k + 1..])
  {
    hide Taken, Covers;
    var l, live1 := live[k], live[..k] + live[k + 1..];
    var s1 := FreeIn(s, l.pos, l.n);
    forall i | l.pos <= i < l.pos + l.n ensures !s.bits[i] {
      FreedCover(live, k, i);
    }
    CountSetRun(s.bits, l.pos, l.n, true);
    assert forall j :: 0 <= j < |live1| ==> live1[j] == live[if j < k then j else j + 1];
    forall b | 0 <= b < |s1.bits| ensures s1.bits[b] == !Taken(live1, b) {
      FreedCover(live, k, b);
    }
  }

  /** Whether a block is taken with and without allocation `k`. */
  lemma FreedCover(live: seq<Live>, k: nat, b: nat)
    requires k < |live| && forall i, j :: 0 <= i < j < |live| ==> Apart(live[i], live[j])
    ensures var live1, inside := live[..k] + live[k + 1..], live[k].pos <= b < live[k].pos + live[k].n;
            (Taken(live, b) <==> Taken(live1, b) || inside) && !(Taken(live1, b) && inside)
  {
    hide Taken;
    var x, y := live[..k], live[k + 1..];
    assert live == x + [live[k]] + y;
    TakenInBoth(x + [live[k]], y, b);
    TakenInBoth(x, [live[k]], b);
    TakenInBoth(x, y, b);
    TakenByOne(live[k], b);
    NotTwice(live, k, b);
  }

  lemma NotTwice(live: seq<Live>, k: nat, b: nat)
    requires k < |live| && forall i, j :: 0 <= i < j < |live| ==> Apart(live[i], live[j])
    ensures Covers(live[k], b) ==> !Taken(live[..k] + live[k + 1..], b)
  {
    var live1 := live[..k] + live[k + 1..];
    forall j | 0 <= j < |live1| ensures !(Covers(live[k], b) && Covers(live1[j], b)) {
      var i := if j < k then j else j + 1;
      assert live1[j] == live[i];
      assert i < k ==> Apart(live[i], live[k]);
      assert k < i ==> Apart(live[k], live[i]);
    }
  }
}
