/** Which banks a measurement reaches, stated by the PCRs that the TPM's selection structure
    (TPML_PCR_SELECTION, lib/libtpm/tcgbios.c) selects, and the value that a bank has after any run. */
module PcrSelection {
  import opened Bytes
  import opened EventLog
  import opened MeasuredBoot

  /** TPMS_PCR_SELECTION: PCR number p is bit p % 8 of byte p / 8. */
  datatype Entry = Entry(alg: uint16, bitmap: seq<byte>)

  predicate AllSized(es: seq<Entry>) { forall k :: 0 <= k < |es| ==> |es[k].bitmap| < 0x100 }

  function PutEntry(e: Entry): (s: seq<byte>)
    requires |e.bitmap| < 0x100
    ensures |s| == 3 + |e.bitmap|
  {
    Be16(e.alg) + [|e.bitmap|] + e.bitmap
  }

  function PutEntries(es: seq<Entry>): seq<byte>
    requires AllSized(es)
  {
    if es == [] then [] else assert |es[0].bitmap| < 0x100; PutEntry(es[0]) + PutEntries(es[1..])
  }

  const BITS: seq<nat> := [1, 2, 4, 8, 16, 32, 64, 128]

  predicate Selects(e: Entry, pcr: nat) {
    pcr / 8 < |e.bitmap| && (e.bitmap[pcr / 8] as int / BITS[pcr % 8]) % 2 == 1
  }

  /** One of the PCRs 0 to 7, which the firmware measures into, is selected. */
  predicate InUse(e: Entry) { exists pcr: nat :: pcr < 8 && Selects(e, pcr) }

  function UsedAlgs(es: seq<Entry>): seq<uint16> {
    if es == [] then [] else (if InUse(es[0]) then [es[0].alg] else []) + UsedAlgs(es[1..])
  }

  /** The structure holds exactly the entries `es`. A count above their number is tolerated. */
  predicate Describes(sel: seq<byte>, es: seq<Entry>) {
    AllSized(es) && |sel| >= 4 && |es| <= FromBe32(sel[..4]) && sel[4..] == PutEntries(es)
  }

  lemma SomeBitSet(b: byte)
    ensures b != 0 <==> exists k :: 0 <= k < 8 && (b as int / BITS[k]) % 2 == 1
  {
    var v := b as int;
    if v != 0 {
      var k := if v >= 128 then 7 else if v >= 64 then 6 else if v >= 32 then 5 else if v >= 16 then 4
      else if v >= 8 then 3 else if v >= 4 then 2 else if v >= 2 then 1 else 0;
      assert BITS[k] <= v < 2 * BITS[k];
      assert v / BITS[k] == 1;
    }
  }

  /** An entry is in use exactly if it has a bitmap whose first byte is not 0. */
  lemma InUseIs(e: Entry)
    ensures InUse(e) <==> e.bitmap != [] && e.bitmap[0] != 0
  {
    if e.bitmap != [] {
      SomeBitSet(e.bitmap[0]);
      assert forall pcr: nat :: pcr < 8 ==> pcr / 8 == 0 && pcr % 8 == pcr;
      if e.bitmap[0] != 0 {
        var k :| 0 <= k < 8 && (e.bitmap[0] as int / BITS[k]) % 2 == 1;
        assert Selects(e, k);
      }
    }
  }

  /** The parts of one entry at `pos` and where the next one starts. */
  lemma EntryAt(sel: seq<byte>, pos: nat, e: Entry, rest: seq<byte>)
    requires pos <= |sel| && |e.bitmap| < 0x100
    requires sel[pos..] == PutEntry(e) + rest
    ensures pos + 3 + |e.bitmap| <= |sel| && sel[pos + 2] as int == |e.bitmap|
    ensures FromBe16(sel[pos..pos + 2]) == e.alg
    ensures e.bitmap != [] ==> sel[pos + 3] == e.bitmap[0]
    ensures sel[pos + 3 + |e.bitmap|..] == rest
  {
    var w := sel[pos..];
    assert |w| == 3 + |e.bitmap| + |rest|;
    assert sel[pos..pos + 2] == w[..2] == Be16(e.alg);
    assert sel[pos + 2] == w[2] && (e.bitmap != [] ==> sel[pos + 3] == w[3]);
    assert sel[pos + 3 + |e.bitmap|..] == w[3 + |e.bitmap|..];
  }

  lemma UsedStep(es: seq<Entry>)
    requires es != []
    ensures var rest := UsedAlgs(es[1..]);
            if InUse(es[0])
            then UsedAlgs(es) == [es[0].alg] + rest
                 && (AllSupported(UsedAlgs(es)) <==> Supported(es[0].alg) && AllSupported(rest))
            else UsedAlgs(es) == rest
  {
    hide InUse, Supported;
    var rest := UsedAlgs(es[1..]);
    if InUse(es[0]) {
      assert forall k :: 0 <= k < |rest| ==> rest[k] == UsedAlgs(es)[k + 1];
      assert UsedAlgs(es)[0] == es[0].alg;
    }
  }

  /** One entry of the walk. */
  lemma WalkStep(sel: seq<byte>, pos: nat, n: nat, e: Entry, rest: seq<byte>)
    requires pos <= |sel| && |e.bitmap| < 0x100 && n > 0 && sel[pos..] == PutEntry(e) + rest
    ensures pos + 3 + |e.bitmap| <= |sel| && sel[pos + 3 + |e.bitmap|..] == rest
    ensures var more := Walk(sel, pos + 3 + |e.bitmap|, n - 1);
            Walk(sel, pos, n) ==
            if !InUse(e) then more else if Supported(e.alg) then Prepend([e.alg], more) else None
  {
    hide PutEntry, Be16, FromBe16, InUse, Supported, Prepend, AllSupported;
    EntryAt(sel, pos, e, rest);
    InUseIs(e);
  }

  /** The walk over the entries `es` gives the algorithms in use, or nothing if one is unknown. */
  lemma {:induction false} WalkReads(sel: seq<byte>, pos: nat, n: nat, es: seq<Entry>)
    requires pos <= |sel| && AllSized(es) && |es| <= n && sel[pos..] == PutEntries(es)
    ensures Walk(sel, pos, n) == if AllSupported(UsedAlgs(es)) then Some(UsedAlgs(es)) else None
    decreases es
  {
    hide PutEntry, InUse, Supported, AllSupported;
    if es == [] {
      assert pos == |sel|;
      NothingUsed();
    } else {
      hide Walk;
      assert |es[0].bitmap| < 0x100;
      WalkStep(sel, pos, n, es[0], PutEntries(es[1..]));
      UsedStep(es);
      WalkReads(sel, pos + 3 + |es[0].bitmap|, n - 1, es[1..]);
    }
  }

  lemma NothingUsed()
    ensures UsedAlgs([]) == [] && AllSupported([])
  {
  }

  /** A walk that succeeds has met a list of entries. */
  lemma {:induction false} WalkFinds(sel: seq<byte>, pos: nat, n: nat) returns (es: seq<Entry>)
    requires pos <= |sel| && Walk(sel, pos, n).Some?
    ensures AllSized(es) && |es| <= n && sel[pos..] == PutEntries(es)
    decreases n
  {
    hide Be16, FromBe16;
    if n == 0 || pos + 3 > |sel| || pos + 3 + sel[pos + 2] as int > |sel| {
      es := [];
    } else {
      var next := pos + 3 + sel[pos + 2] as int;
      var e := Entry(FromBe16(sel[pos..pos + 2]), sel[pos + 3..next]);
      var rest := WalkFinds(sel, next, n - 1);
      es := [e] + rest;
      AlgUndone(sel[pos..pos + 2]);
      assert es[1..] == rest;
      SplitEntry(sel, pos, next);
    }
  }

  lemma SplitEntry(sel: seq<byte>, pos: nat, next: nat)
    requires pos + 3 <= next <= |sel|
    ensures sel[pos..] == sel[pos..pos + 2] + [sel[pos + 2]] + sel[pos + 3..next] + sel[next..]
  {
  }

  lemma AlgUndone(s: seq<byte>)
    requires |s| == 2
    ensures Be16(FromBe16(s)) == s
  {
  }

  /** The banks a selection names are exactly the algorithms of its entries that select one of the PCRs 0
      to 7, in their order; there are none exactly if one of these algorithms is unknown or the structure
      is not made of entries, at most as many as its count says. */
  lemma BanksAre(sel: seq<byte>, algs: seq<uint16>)
    requires |sel| >= 7
    ensures Banks(sel) == Some(algs) <==>
              exists es :: Describes(sel, es) && UsedAlgs(es) == algs && AllSupported(algs)
    ensures forall es :: Describes(sel, es) ==>
                           Banks(sel) == if AllSupported(UsedAlgs(es)) then Some(UsedAlgs(es)) else None
  {
    hide Walk, PutEntries, UsedAlgs, AllSupported, FromBe32;
    var n: nat := FromBe32(sel[..4]);
    forall es | Describes(sel, es)
      ensures Banks(sel) == if AllSupported(UsedAlgs(es)) then Some(UsedAlgs(es)) else None
    {
      WalkReads(sel, 4, n, es);
    }
    if Banks(sel) == Some(algs) {
      var es := WalkFinds(sel, 4, n);
      assert Describes(sel, es);
    }
  }

  // ----- what reaches the TPM

  /** A bank's value after `times` extensions by `digest`. */
  function Extended(hash: HashFamily, alg: uint16, value: seq<byte>, digest: seq<byte>, times: nat): seq<byte>
    decreases times
  {
    if times == 0 then value else Extended(hash, alg, hash(alg, value + digest), digest, times - 1)
  }

  lemma FirstDigest(hash: HashFamily, algs: seq<uint16>, data: seq<byte>)
    requires AllSupported(algs) && algs != []
    ensures AllSupported(algs[1..]) && Supported(algs[0])
    ensures Digests(hash, algs, data)[0] == TaggedDigest(algs[0], BankDigest(hash, algs[0], data))
    ensures Digests(hash, algs, data)[1..] == Digests(hash, algs[1..], data)
  {
    hide BankDigest;
  }

  lemma CountFirst(algs: seq<uint16>, alg: uint16)
    requires algs != []
    ensures multiset(algs)[alg] == (if algs[0] == alg then 1 else 0) + multiset(algs[1..])[alg]
    ensures alg in algs <==> multiset(algs)[alg] > 0
  {
    assert algs == [algs[0]] + algs[1..];
  }

  /** Extending by the digests of `data` for `algs` changes the banks of this PCR and these algorithms,
      once for every time the algorithm is listed. */
  lemma {:induction false} ExtendIs(hash: HashFamily, pcrs: Pcrs, pcr: uint32, algs: seq<uint16>, data: seq<byte>,
                                    bank: (uint32, uint16))
    requires AllSupported(algs) && bank in pcrs
    ensures var after := Extend(hash, pcrs, pcr, Digests(hash, algs, data));
            && bank in after
            && after[bank] ==
               if bank.0 == pcr && bank.1 in algs
               then Extended(hash, bank.1, pcrs[bank], BankDigest(hash, bank.1, data), multiset(algs)[bank.1])
               else pcrs[bank]
    decreases |algs|
  {
    hide BankDigest, Digests, AllSupported;
    if algs != [] {
      FirstDigest(hash, algs, data);
      CountFirst(algs, bank.1);
      var d := TaggedDigest(algs[0], BankDigest(hash, algs[0], data));
      var next := ExtendBank(hash, pcrs, pcr, d);
      ExtendIs(hash, next, pcr, algs[1..], data, bank);
      assert bank.1 in algs <==> bank.1 == algs[0] || bank.1 in algs[1..];
    }
  }

  /** The selection can be measured with: its banks are known and their digests fit a log entry. */
  predicate Usable(algs: seq<uint16>) { AllSupported(algs) && 12 + DigestBytes(algs) <= 368 }

  /** One measurement, by what the TPM's selection says: which calls fail, and that an accepted one leaves
      in every selected bank of its PCR the hash of the old value and the digest of the data, and leaves
      every other bank alone. */
  lemma MeasurementReaches(c: Config, b: Boot, i: Input, es: seq<Entry>)
    requires 7 <= |c.selection| <= 113 && ValidInput(i) && Describes(c.selection, es)
    ensures var algs := UsedAlgs(es);
            var (after, code) := Measure(c, b, i);
            && (code == GeneralError <==> !Usable(algs))
            && (code == CommandError <==> Usable(algs) && !i.accepted)
            && (code in {GeneralError, CommandError} ==> after.pcrs == b.pcrs && after.log == b.log)
            && (code in {Ok, LogOverflow} ==>
                  && after.pcrs.Keys == b.pcrs.Keys
                  && forall bank <- b.pcrs ::
                    after.pcrs[bank] ==
                    if bank.0 == i.pcr && bank.1 in algs
                    then Extended(c.hash, bank.1, b.pcrs[bank], BankDigest(c.hash, bank.1, i.data),
                                  multiset(algs)[bank.1])
                    else b.pcrs[bank])
            && (code in {Ok, LogOverflow} ==>
                  forall bank <- b.pcrs ::
                    bank.0 == i.pcr && bank.1 in algs && multiset(algs)[bank.1] == 1 ==>
                      after.pcrs[bank] == c.hash(bank.1, b.pcrs[bank] + BankDigest(c.hash, bank.1, i.data)))
  {
    hide Describes, Banks, UsedAlgs, BankDigest, DigestBytes, PutEvent, Digests, Extend;
    var algs := UsedAlgs(es);
    BanksAre(c.selection, algs);
    if Usable(algs) && i.accepted {
      forall bank <- b.pcrs
        ensures var after := Extend(c.hash, b.pcrs, i.pcr, Digests(c.hash, algs, i.data));
                && bank in after
                && after[bank] ==
                   if bank.0 == i.pcr && bank.1 in algs
                   then Extended(c.hash, bank.1, b.pcrs[bank], BankDigest(c.hash, bank.1, i.data),
                                 multiset(algs)[bank.1])
                   else b.pcrs[bank]
      {
        ExtendIs(c.hash, b.pcrs, i.pcr, algs, i.data, bank);
      }
      NoBankNoChange(c.hash, b.pcrs, i.pcr, Digests(c.hash, algs, i.data));
    }
  }

  lemma {:induction false} NoBankNoChange(hash: HashFamily, pcrs: Pcrs, pcr: uint32, ds: seq<TaggedDigest>)
    ensures Extend(hash, pcrs, pcr, ds).Keys == pcrs.Keys
    decreases |ds|
  {
    if ds != [] {
      NoBankNoChange(hash, ExtendBank(hash, pcrs, pcr, ds[0]), pcr, ds[1..]);
    }
  }

  /** What an accepted measurement logs: one record with the caller's PCR, event type and information and
      one digest for each bank in use, in the order of the selection; and it logs this record exactly if
      there is a log with room for it. */
  lemma MeasurementIsLogged(c: Config, b: Boot, i: Input, es: seq<Entry>) returns (e: Event)
    requires 7 <= |c.selection| <= 113 && ValidInput(i) && Describes(c.selection, es)
    requires Sized(c.hash) && Usable(UsedAlgs(es)) && i.accepted
    ensures e.pcr == i.pcr && e.kind == i.kind && e.data == i.info
    ensures |e.digests| == |UsedAlgs(es)| < 0x1_0000_0000
    ensures forall k :: 0 <= k < |e.digests| ==>
                          e.digests[k].alg == UsedAlgs(es)[k]
                          && e.digests[k].digest == BankDigest(c.hash, UsedAlgs(es)[k], i.data)
    ensures |PutEvent(e)| == 16 + DigestBytes(UsedAlgs(es)) + |i.info|
    ensures var (after, code) := Measure(c, b, i);
            && (code == Ok <==> b.log.Some? && |b.log.value| + |PutEvent(e)| <= c.logSize)
            && after.log == if code == Ok then Some(b.log.value + PutEvent(e)) else b.log
  {
    hide UsedAlgs, Describes, Banks;
    BanksAre(c.selection, UsedAlgs(es));
    e := EventOf(c.hash, UsedAlgs(es), i);
    DigestsLength(c.hash, UsedAlgs(es), i.data, false);
  }

  /** The data that the accepted measurements of a run put into one PCR, in order. */
  function DataOf(ins: seq<Input>, pcr: uint32): seq<seq<byte>> {
    if ins == [] then []
    else
      var last := |ins| - 1;
      DataOf(ins[..last], pcr) + (if ins[last].accepted && ins[last].pcr == pcr then [ins[last].data] else [])
  }

  /** The hash chain over `data`, starting at `value`. */
  function Chain(hash: HashFamily, alg: uint16, value: seq<byte>, data: seq<seq<byte>>, times: nat): seq<byte>
    requires Supported(alg)
  {
    if data == [] then value
    else
      var last := |data| - 1;
      Extended(hash, alg, Chain(hash, alg, value, data[..last], times), BankDigest(hash, alg, data[last]), times)
  }

  /** After any run, every selected bank holds the hash chain over exactly the data that the TPM accepted
      for its PCR, in their order, and every other bank its old value. */
  lemma {:induction false} PcrsAreChains(c: Config, b: Boot, ins: seq<Input>, es: seq<Entry>, bank: (uint32, uint16))
    requires 7 <= |c.selection| <= 113 && ValidInputs(ins) && Describes(c.selection, es)
    requires Usable(UsedAlgs(es)) && bank in b.pcrs
    ensures var (after, codes) := RunFrom(c, b, ins);
            && (forall k :: 0 <= k < |ins| ==> (codes[k] in {Ok, LogOverflow} <==> ins[k].accepted))
            && after.pcrs.Keys == b.pcrs.Keys
            && after.pcrs[bank] ==
               if bank.1 in UsedAlgs(es)
               then Chain(c.hash, bank.1, b.pcrs[bank], DataOf(ins, bank.0), multiset(UsedAlgs(es))[bank.1])
               else b.pcrs[bank]
  {
    hide Describes, UsedAlgs, BankDigest, Measure, Usable, Extended;
    if ins != [] {
      var last := |ins| - 1;
      PcrsAreChains(c, b, ins[..last], es, bank);
      var before := RunFrom(c, b, ins[..last]).0;
      MeasurementReaches(c, before, ins[last], es);
      var data := DataOf(ins[..last], bank.0);
      assert (data + [ins[last].data])[..|data|] == data;
      assert data + [] == data;
    }
  }
}
