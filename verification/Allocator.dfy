/** slof/allocator.c: a word-packed bitmap allocator refines the set of free blocks. */
module Allocator {
  import opened Bytes
  import opened BitWords
  import opened BlockRuns
  import opened Arith

  /** BM_NUM_BITS. */
  function Blocks(size: nat, blockSize: nat): (n: nat)
    requires blockSize > 0
    ensures (n - 1) * blockSize < size <= n * blockSize || size == n == 0
  {
    var q, r := size / blockSize, size % blockSize;
    assert size == q * blockSize + r;
    assert (q + 1) * blockSize == q * blockSize + blockSize;
    q + if r != 0 then 1 else 0
  }

  /** A request: allocation of a size, or release of the `k`-th live allocation. */
  datatype Op = Alloc(size: nat) | Free(k: nat)

  /** An allocation that a caller holds: its address and size. */
  datatype Held = Held(addr: nat, size: nat)

  class Bitmap {
    const start: nat
    const size: nat
    const blockSize: nat
    const bmw: array<Word>
    var freeBlocks: int

    /** Number of blocks of the region. */
    ghost function Total(): nat
      requires blockSize > 0
    {
      Blocks(size, blockSize)
    }

    /** The region is not empty and ends below 2^64, and its blocks can be counted in an int. */
    ghost predicate Valid()
      reads this
    {
      && blockSize > 0 && size > 0 && start + size < 0x1_0000_0000_0000_0000
      && Total() < 0x8000_0000 && Total() <= WORD_BITS * bmw.Length
    }

    ghost function Contents(): (s: State)
      requires Valid()
      reads this, bmw
      ensures |s.bits| == Total()
    {
      State(Bits(bmw[..])[..Total()], freeBlocks)
    }

    constructor (start: nat, size: nat, blockSize: nat)
      requires blockSize > 0 && size > 0 && start + size < 0x1_0000_0000_0000_0000
      requires Blocks(size, blockSize) < 0x8000_0000
      ensures Valid() && fresh(bmw)
      ensures this.start == start && this.size == size && this.blockSize == blockSize
      ensures Contents() == State(seq(Total(), _ => true), Total())
    {
      var bits := Blocks(size, blockSize);
      var words := bits / WORD_BITS + if bits % WORD_BITS != 0 then 1 else 0;
      this.start, this.size, this.blockSize, freeBlocks := start, size, blockSize, bits;
      bmw := new Word[words];
      new;
      forall i | 0 <= i < words {
        bmw[i] := 0xffff_ffff_ffff_ffff;
      }
      AllOnes(bmw[..]);
    }

    /** SLOF_bm_allocator_init; `memory` says whether the allocation of the bitmap succeeds. */
    static method Init(start: nat, size: nat, blockSize: nat, memory: bool) returns (handle: Bitmap?)
      requires start + size < 0x1_0000_0000_0000_0000
      requires Blocks(size, if blockSize == 0 then 4096 else blockSize) < 0x8000_0000
      ensures handle == null <==> size == 0 || !memory
      ensures handle != null ==>
                && fresh(handle) && fresh(handle.bmw) && handle.Valid() && handle.start == start && handle.size == size
                && handle.blockSize == (if blockSize == 0 then 4096 else blockSize)
                && handle.Contents() == State(seq(handle.Total(), _ => true), handle.Total())
    {
      if size == 0 {
        return null;
      }
      var bs := blockSize;
      if bs == 0 {
        bs := 4096;
      }
      if !memory {
        return null;
      }
      handle := new Bitmap(start, size, bs);
    }

    /** The inner loop of bm_find_bits: where the free blocks that start at `i` end, at most `n` of them. */
    method RunEnd(i: nat, n: nat) returns (j: nat)
      requires Valid() && i + n <= Total()
      ensures i <= j <= i + n && forall k :: i <= k < j ==> Contents().bits[k]
      ensures j < i + n ==> !Contents().bits[j]
    {
      hide Bits;
      j := i;
      while j < i + n
        invariant i <= j <= i + n && forall k :: i <= k < j ==> Contents().bits[k]
      {
        var free := TestBit(bmw, j);
        if !free {
          break;
        }
        j := j + 1;
      }
    }

    /** bm_find_bits. */
    method FindBits(n: nat) returns (found: int)
      requires Valid() && n <= Total()
      ensures match Lowest(Contents().bits, n) case None => found == -1 case Some(i) => found == i
    {
      hide Bits, RunAt;
      found := -1;
      var total := Blocks(size, blockSize);
      ghost var bits := Contents().bits;
      var i := 0;
      while i < total
        invariant 0 <= i <= total && found == -1 && LowestFrom(bits, i, n) == Lowest(bits, n)
      {
        var free := TestBit(bmw, i);
        IsRunAt(bits, i, n);
        if free {
          if i + n > total {
            NoLaterRun(bits, i, n);
            break;
          }
          var j := RunEnd(i, n);
          if j == i + n {
            found := i;
            break;
          }
        }
        i := i + 1;
      }
    }

    /** SLOF_bm_alloc: the address of the lowest run that is long enough, or -1 if there is none. */
    static method Alloc(handle: Bitmap?, size: nat) returns (addr: int)
      requires handle != null ==> handle.Valid() && handle.freeBlocks == Count(handle.Contents().bits)
      modifies handle, if handle == null then {} else {handle.bmw}
      ensures handle == null ==> addr == -1
      ensures handle != null ==>
                var (s, r) := AllocIn(old(handle.Contents()), Blocks(size, handle.blockSize));
                && handle.Valid() && handle.Contents() == s
                && addr == match r case None => -1 case Some(i) => handle.start + i * handle.blockSize
    {
      if handle == null {
        return -1;
      }
      var n := Blocks(size, handle.blockSize);
      ghost var bits := handle.Contents().bits;
      if n > handle.freeBlocks {
        NoRunBeyondCount(bits, n);
        return -1;
      }
      var pos := handle.FindBits(n);
      if pos == -1 {
        return -1;
      }
      handle.ClearRun(pos, n);
      handle.freeBlocks := handle.freeBlocks - n;
      addr := handle.start + pos * handle.blockSize;
    }

    method ClearRun(pos: nat, n: nat)
      requires Valid() && pos + n <= Total()
      modifies bmw
      ensures Valid() && Contents() == old(Contents()).(bits := SetRun(old(Contents()).bits, pos, n, false))
    {
      hide Bits, SetRun;
      ghost var bits, total := Bits(bmw[..]), Total();
      EmptyRun(bits, pos, false);
      var i := pos;
      while i < pos + n
        invariant pos <= i <= pos + n && Bits(bmw[..]) == SetRun(bits, pos, i - pos, false)
      {
        ClearBit(bmw, i);
        GrowRun(bits, pos, i - pos, false);
        i := i + 1;
      }
      RunInRegion(bits, total, pos, n, false);
    }

    method SetRunOf(pos: nat, n: nat)
      requires Valid() && pos + n <= Total()
      modifies bmw
      ensures Valid() && Contents() == old(Contents()).(bits := SetRun(old(Contents()).bits, pos, n, true))
    {
      hide Bits, SetRun;
      ghost var bits, total := Bits(bmw[..]), Total();
      EmptyRun(bits, pos, true);
      var i := pos;
      while i < pos + n
        invariant pos <= i <= pos + n && Bits(bmw[..]) == SetRun(bits, pos, i - pos, true)
      {
        SetBit(bmw, i);
        GrowRun(bits, pos, i - pos, true);
        i := i + 1;
      }
      RunInRegion(bits, total, pos, n, true);
    }

    /** SLOF_bm_free, for an address on a block boundary. A block range that is not inside the region is
        refused; otherwise its blocks become free. */
    static method Free(handle: Bitmap?, addr: nat, size: nat)
      requires handle != null ==> handle.Valid()
      requires handle != null && addr >= handle.start ==> (addr - handle.start) % handle.blockSize == 0
      modifies handle, if handle == null then {} else {handle.bmw}
      ensures handle != null ==>
                && handle.Valid()
                && handle.Contents() ==
                   if addr < handle.start || addr + size > handle.start + handle.size then old(handle.Contents())
                   else FreeIn(old(handle.Contents()), (addr - handle.start) / handle.blockSize,
                               Blocks(size, handle.blockSize))
    {
      if handle == null {
        return;
      }
      var n := Blocks(size, handle.blockSize);
      if addr < handle.start || handle.start + handle.size < addr + size {
        return;
      }
      var pos := (addr - handle.start) / handle.blockSize;
      BlocksInRegion(addr - handle.start, size, handle.size, handle.blockSize);
      handle.freeBlocks := handle.freeBlocks + n;
      handle.SetRunOf(pos, n);
    }

    /** What a caller holds for a live allocation. */
    ghost predicate Holds(h: Held, l: Live)
      requires blockSize > 0
    {
      h.size > 0 && h.addr == start + l.pos * blockSize && l.n == Blocks(h.size, blockSize)
    }

    ghost predicate HoldsAll(held: seq<Held>, live: seq<Live>)
      requires blockSize > 0
    {
      |held| == |live| && forall k :: 0 <= k < |held| ==> Holds(held[k], live[k])
    }

    /** The region is a whole number of blocks. */
    ghost predicate WholeRegion() { blockSize > 0 && size % blockSize == 0 }

    /** One request of a run. */
    method Do(op: Op, held: seq<Held>, ghost live: seq<Live>) returns (held1: seq<Held>, ghost live1: seq<Live>)
      requires Valid() && WholeRegion() && Inv(Contents(), live) && HoldsAll(held, live)
      requires op.Alloc? ==> op.size > 0
      modifies this, bmw
      ensures Valid() && Inv(Contents(), live1) && HoldsAll(held1, live1)
    {
      hide Bits, Blocks, AllocIn, FreeIn, Inv;
      held1, live1 := held, live;
      ghost var before := Contents();
      InvCounts(before, live);
      match op {
        case Alloc(request) =>
          ghost var n := Blocks(request, blockSize);
          AtLeastOne(request, blockSize);
          AllocKeepsInv(before, live, n);
          var addr := Bitmap.Alloc(this, request);
          if addr != -1 {
            held1, live1 := held + [Held(addr, request)], live + [Live(AllocIn(before, n).1.value, n)];
          }
        case Free(k) =>
          if k < |held| {
            FreeKeepsInv(before, live, k);
            LiveInside(before, live, k, held[k].size, size, blockSize);
            Bitmap.Free(this, held[k].addr, held[k].size);
            held1, live1 := held[..k] + held[k + 1..], live[..k] + live[k + 1..];
          }
      }
    }

    /** Any run of allocations and releases: what the callers hold lies in the region and does not overlap, and
        every other block is free. A request for nothing is not made, and only held memory is released. */
    method Run(ops: seq<Op>) returns (held: seq<Held>, ghost live: seq<Live>)
      requires Valid() && WholeRegion() && Contents() == State(seq(Total(), _ => true), Total())
      requires forall i :: 0 <= i < |ops| && ops[i].Alloc? ==> ops[i].size > 0
      modifies this, bmw
      ensures Valid() && Inv(Contents(), live) && HoldsAll(held, live)
      ensures forall k :: 0 <= k < |held| ==> start <= held[k].addr && held[k].addr + held[k].size <= start + size
      ensures forall j, k :: 0 <= j < k < |held| ==>
                held[j].addr + held[j].size <= held[k].addr || held[k].addr + held[k].size <= held[j].addr
    {
      hide Bits, Blocks, Inv;
      held, live := [], [];
      NothingLive(Contents());
      var i := 0;
      while i < |ops|
        invariant 0 <= i <= |ops| && Valid() && Inv(Contents(), live) && HoldsAll(held, live)
      {
        held, live := Do(ops[i], held, live);
        i := i + 1;
      }
      forall k | 0 <= k < |held| ensures held[k].addr + held[k].size <= start + size {
        LiveInside(Contents(), live, k, held[k].size, size, blockSize);
      }
      forall j, k | 0 <= j < k < |held|
        ensures held[j].addr + held[j].size <= held[k].addr || held[k].addr + held[k].size <= held[j].addr
      {
        LiveApart(Contents(), live, j, k, held[j].size, held[k].size, blockSize);
      }
    }
  }

  lemma NothingLive(s: State)
    requires s == State(seq(|s.bits|, _ => true), |s.bits|)
    ensures Inv(s, [])
  {
    CountAll(s.bits, true);
  }

  lemma InvCounts(s: State, live: seq<Live>)
    requires Inv(s, live)
    ensures s.free == Count(s.bits)
  {
  }

  lemma AtLeastOne(size: nat, blockSize: nat)
    requires blockSize > 0 && size > 0
    ensures Blocks(size, blockSize) >= 1
  {
  }

  lemma WholeRegionBlocks(size: nat, blockSize: nat)
    requires blockSize > 0 && size % blockSize == 0
    ensures Blocks(size, blockSize) * blockSize == size
  {
  }

  /** The bytes of a live allocation lie in the region, on a block boundary. */
  lemma LiveInside(s: State, live: seq<Live>, k: nat, size: nat, regionSize: nat, blockSize: nat)
    requires Inv(s, live) && k < |live| && blockSize > 0 && regionSize % blockSize == 0
    requires |s.bits| == Blocks(regionSize, blockSize) && live[k].n == Blocks(size, blockSize)
    ensures live[k].pos * blockSize + size <= regionSize
    ensures (live[k].pos * blockSize) % blockSize == 0 && live[k].pos * blockSize / blockSize == live[k].pos
  {
    hide Blocks;
    var l := live[k];
    MultipleOf(l.pos, blockSize);
    WholeRegionBlocks(regionSize, blockSize);
    Compare(l.pos + l.n, |s.bits|, blockSize);
    Distribute(l.pos, l.n, blockSize);
  }

  /** The bytes of two live allocations do not overlap. */
  lemma LiveApart(s: State, live: seq<Live>, j: nat, k: nat, sizeJ: nat, sizeK: nat, blockSize: nat)
    requires Inv(s, live) && j < k < |live| && blockSize > 0
    requires live[j].n == Blocks(sizeJ, blockSize) && live[k].n == Blocks(sizeK, blockSize)
    ensures live[j].pos * blockSize + sizeJ <= live[k].pos * blockSize
            || live[k].pos * blockSize + sizeK <= live[j].pos * blockSize
  {
    hide Blocks;
    var a, b := live[j], live[k];
    assert Apart(a, b) by { hide Taken; }
    hide Inv;
    Compare(a.pos + a.n, b.pos, blockSize);
    Compare(b.pos + b.n, a.pos, blockSize);
    Distribute(a.pos, a.n, blockSize);
    Distribute(b.pos, b.n, blockSize);
  }

  lemma IsRunAt(bits: seq<bool>, i: nat, n: nat)
    requires i < |bits|
    ensures RunAt(bits, i, n) <==> bits[i] && i + n <= |bits| && forall k :: i <= k < i + n ==> bits[k]
  {
  }

  lemma NoLaterRun(bits: seq<bool>, i: nat, n: nat)
    requires i + n > |bits|
    ensures LowestFrom(bits, i, n) == None
  {
    var r := LowestFrom(bits, i, n);
    assert r.Some? ==> RunAt(bits, r.value, n);
  }

  lemma EmptyRun(bits: seq<bool>, pos: nat, v: bool)
    ensures SetRun(bits, pos, 0, v) == bits
  {
  }

  lemma GrowRun(bits: seq<bool>, pos: nat, n: nat, v: bool)
    requires pos + n < |bits|
    ensures SetRun(bits, pos, n, v)[pos + n := v] == SetRun(bits, pos, n + 1, v)
  {
  }

  lemma RunInRegion(bits: seq<bool>, total: nat, pos: nat, n: nat, v: bool)
    requires pos + n <= total <= |bits|
    ensures SetRun(bits, pos, n, v)[..total] == SetRun(bits[..total], pos, n, v)
  {
  }

  /** An aligned byte range inside the region covers blocks of the region only. */
  lemma BlocksInRegion(offset: nat, size: nat, regionSize: nat, blockSize: nat)
    requires blockSize > 0 && offset % blockSize == 0 && offset + size <= regionSize
    ensures offset / blockSize + Blocks(size, blockSize) <= Blocks(regionSize, blockSize)
  {
    hide Blocks;
    var p, n, t := offset / blockSize, Blocks(size, blockSize), Blocks(regionSize, blockSize);
    WholeBlocks(offset, blockSize);
    Distribute(p, n - 1, blockSize);
    Compare(p, t, blockSize);
    Compare(t, p + n - 1, blockSize);
  }

  lemma WholeBlocks(offset: nat, blockSize: nat)
    requires blockSize > 0 && offset % blockSize == 0
    ensures offset == offset / blockSize * blockSize
  {
  }
}
