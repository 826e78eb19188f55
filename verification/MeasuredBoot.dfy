/** The measured-boot state machine of lib/libtpm/tcgbios.c: what one measurement does to the TPM
    and to the log, over every run. The TPM is a map from (PCR, algorithm) to a digest; its hash
    functions are uninterpreted. */
module MeasuredBoot {
  import opened Bytes
  import opened EventLog

  // ----- the PCR selection the TPM reported

  /** sizeof(struct tpm_log_entry), and the offset of its first TPMT_HA. */
  const ENTRY_SIZE := 368
  const FIRST_DIGEST := 12

  /** Prepends the algorithms of an already walked prefix. */
  function Prepend(prefix: seq<uint16>, rest: Option<seq<uint16>>): Option<seq<uint16>> {
    match rest
    case None => None
    case Some(algs) => Some(prefix + algs)
  }

  /** The banks in use among `n` selection entries starting at `pos`, in order; None when the structure
      is malformed or names an unknown algorithm. An entry whose first bitmap byte is 0, or that has no
      bitmap, is skipped. */
  function Walk(sel: seq<byte>, pos: nat, n: nat): (r: Option<seq<uint16>>)
    requires pos <= |sel|
    ensures r.Some? ==> AllSupported(r.value) && 3 * |r.value| <= |sel| - pos
    decreases n
  {
    if n == 0 || pos + 3 > |sel| || pos + 3 + sel[pos + 2] as int > |sel| then
      if pos == |sel| then Some([]) else None
    else
      var next := pos + 3 + sel[pos + 2] as int;
      if sel[pos + 2] == 0 || sel[pos + 3] == 0 then Walk(sel, next, n - 1)
      else
        var alg := FromBe16(sel[pos..pos + 2]);
        if !Supported(alg) then None else Prepend([alg], Walk(sel, next, n - 1))
  }

  function Banks(sel: seq<byte>): (r: Option<seq<uint16>>)
    requires |sel| >= 7
    ensures r.Some? ==> AllSupported(r.value) && 3 * |r.value| <= |sel| - 4
  {
    Walk(sel, 4, FromBe32(sel[..4]))
  }

  /** The digests a measurement of `data` yields, one per bank. */
  function Digests(hash: HashFamily, algs: seq<uint16>, data: seq<byte>): (ds: seq<TaggedDigest>)
    requires AllSupported(algs)
    ensures |ds| == |algs|
    ensures forall i :: 0 <= i < |ds| ==> ds[i] == TaggedDigest(algs[i], BankDigest(hash, algs[i], data))
  {
    seq(|algs|, i requires 0 <= i < |algs| => TaggedDigest(algs[i], BankDigest(hash, algs[i], data)))
  }

  lemma DigestsAreForBanks(hash: HashFamily, algs: seq<uint16>, data: seq<byte>)
    requires Sized(hash) && AllSupported(algs)
    ensures ForBanks(algs, Digests(hash, algs, data))
  {
  }

  function DigestBytes(algs: seq<uint16>): nat
    requires AllSupported(algs)
  {
    if algs == [] then 0 else 2 + Size(algs[0]) + DigestBytes(algs[1..])
  }

  lemma {:induction false} DigestsLength(hash: HashFamily, algs: seq<uint16>, data: seq<byte>, bigEndian: bool)
    requires Sized(hash) && AllSupported(algs)
    ensures |PutDigests(Digests(hash, algs, data), bigEndian)| == DigestBytes(algs)
    ensures 22 * |algs| <= DigestBytes(algs)
  {
    if algs != [] {
      assert Digests(hash, algs, data)[1..] == Digests(hash, algs[1..], data);
      DigestsLength(hash, algs[1..], data, bigEndian);
    }
  }

  // ----- the TPM

  type Pcrs = map<(uint32, uint16), seq<byte>>

  function ExtendBank(hash: HashFamily, pcrs: Pcrs, pcr: uint32, d: TaggedDigest): Pcrs {
    var bank := (pcr, d.alg);
    if bank in pcrs then pcrs[bank := hash(d.alg, pcrs[bank] + d.digest)] else pcrs
  }

  /** TPM2_PCR_Extend with a list of tagged digests. */
  function Extend(hash: HashFamily, pcrs: Pcrs, pcr: uint32, ds: seq<TaggedDigest>): Pcrs
    decreases |ds|
  {
    if ds == [] then pcrs else Extend(hash, ExtendBank(hash, pcrs, pcr, ds[0]), pcr, ds[1..])
  }

  /** What a verifier does with a decoded log: fold all events over the initial PCR values. */
  function Replay(hash: HashFamily, pcrs: Pcrs, es: seq<Event>): Pcrs
    decreases |es|
  {
    if es == [] then pcrs
    else Replay(hash, Extend(hash, pcrs, es[0].pcr, es[0].digests), es[1..])
  }

  lemma {:induction false} ReplayAppend(hash: HashFamily, pcrs: Pcrs, es: seq<Event>, e: Event)
    decreases |es|
    ensures Replay(hash, pcrs, es + [e]) == Extend(hash, Replay(hash, pcrs, es), e.pcr, e.digests)
  {
    if es == [] {
      assert es + [e] == [e];
      assert [e][1..] == [];
    } else {
      assert (es + [e])[1..] == es[1..] + [e];
      ReplayAppend(hash, Extend(hash, pcrs, es[0].pcr, es[0].digests), es[1..], e);
    }
  }

  // ----- one measurement

  datatype Code = Ok | LogOverflow | GeneralError | CommandError

  /** The fixed facts of a boot: hash functions, PCR selection, size of the log area. */
  datatype Config = Config(hash: HashFamily, selection: seq<byte>, logSize: nat)

  ghost predicate ValidConfig(c: Config) {
    Sized(c.hash) && 7 <= |c.selection| <= 113
  }

  /** A call of tpm_add_measurement_to_log and whether the TPM accepted its extend command. */
  datatype Input = Input(pcr: uint32, kind: uint32, info: seq<byte>, data: seq<byte>, accepted: bool)

  predicate ValidInput(i: Input) { |i.info| < 0x1_0000_0000 && |i.data| < 0x1_0000_0000 }

  /** `log` is the used part of the log area; None before tpm_set_log_parameters. */
  datatype Boot = Boot(pcrs: Pcrs, log: Option<seq<byte>>, working: bool)

  /** The banks, provided their digests fit the fixed-size log entry. */
  function UsableBanks(sel: seq<byte>): (r: Option<seq<uint16>>)
    requires |sel| >= 7
    ensures r.Some? ==> AllSupported(r.value) && 3 * |r.value| <= |sel| - 4
  {
    match Banks(sel)
    case None => None
    case Some(algs) => if FIRST_DIGEST + DigestBytes(algs) <= ENTRY_SIZE then Some(algs) else None
  }

  function EventOf(hash: HashFamily, algs: seq<uint16>, i: Input): Event
    requires AllSupported(algs)
  {
    Event(i.pcr, i.kind, Digests(hash, algs, i.data), i.info)
  }

  function AppendRecord(c: Config, b: Boot, record: seq<byte>): (Boot, Code) {
    if b.log.None? || |b.log.value| + |record| > c.logSize then (b, LogOverflow)
    else (b.(log := Some(b.log.value + record)), Ok)
  }

  /** tpm_set_log_parameters: an empty log that gets its first record; a failure marks the TPM as not
      working. */
  function StartLog(c: Config, b: Boot): (Boot, Code)
    requires 7 <= |c.selection| <= 113
  {
    match Banks(c.selection)
    case None => (b.(log := Some([]), working := false), GeneralError)
    case Some(algs) =>
      var (b1, code) := AppendRecord(c, b.(log := Some([])), SpecIdRecord(algs));
      (if code == Ok then b1 else b1.(working := false), code)
  }

  /** tpm_add_measurement_to_log. The log grows only after the TPM has accepted the extend. */
  function Measure(c: Config, b: Boot, i: Input): (Boot, Code)
    requires 7 <= |c.selection| <= 113 && ValidInput(i)
  {
    match UsableBanks(c.selection)
    case None => (b, GeneralError)
    case Some(algs) =>
      if !i.accepted then (b.(working := false), CommandError)
      else
        var e := EventOf(c.hash, algs, i);
        AppendRecord(c, b.(pcrs := Extend(c.hash, b.pcrs, i.pcr, e.digests)), PutEvent(e))
  }

  // ----- runs

  predicate ValidInputs(ins: seq<Input>) { forall k :: 0 <= k < |ins| ==> ValidInput(ins[k]) }

  function RunFrom(c: Config, b: Boot, ins: seq<Input>): (r: (Boot, seq<Code>))
    requires 7 <= |c.selection| <= 113 && ValidInputs(ins)
    ensures |r.1| == |ins|
  {
    if ins == [] then (b, [])
    else
      var last := |ins| - 1;
      var (b1, codes) := RunFrom(c, b, ins[..last]);
      var (b2, code) := Measure(c, b1, ins[last]);
      (b2, codes + [code])
  }

  /** The events of the inputs that returned Ok (those logged), or that returned Ok or LogOverflow
      (those the TPM was extended with). */
  function Select(c: Config, algs: seq<uint16>, ins: seq<Input>, codes: seq<Code>, overflowToo: bool): seq<Event>
    requires |codes| == |ins| && AllSupported(algs)
  {
    if ins == [] then []
    else
      var last := |ins| - 1;
      var before := Select(c, algs, ins[..last], codes[..last], overflowToo);
      if codes[last] == Ok || (overflowToo && codes[last] == LogOverflow)
      then before + [EventOf(c.hash, algs, ins[last])]
      else before
  }

  predicate Subsequence<T(==)>(a: seq<T>, b: seq<T>) {
    if b == [] then a == []
    else
      Subsequence(a, b[..|b| - 1])
      || (a != [] && a[|a| - 1] == b[|b| - 1] && Subsequence(a[..|a| - 1], b[..|b| - 1]))
  }

  lemma {:induction false} LoggedAmongExtended(c: Config, algs: seq<uint16>, ins: seq<Input>, codes: seq<Code>)
    requires |codes| == |ins| && AllSupported(algs)
    ensures Subsequence(Select(c, algs, ins, codes, false), Select(c, algs, ins, codes, true))
    ensures LogOverflow !in codes ==>
              Select(c, algs, ins, codes, false) == Select(c, algs, ins, codes, true)
  {
    if ins != [] {
      var last := |ins| - 1;
      LoggedAmongExtended(c, algs, ins[..last], codes[..last]);
      var a := Select(c, algs, ins[..last], codes[..last], false);
      var b := Select(c, algs, ins[..last], codes[..last], true);
      var e := EventOf(c.hash, algs, ins[last]);
      assert (a + [e])[..|a|] == a && (b + [e])[..|b|] == b;
      if codes[last] == LogOverflow {
        assert codes[last] in codes;
      }
      assert forall k :: 0 <= k < last ==> codes[..last][k] in codes;
    }
  }

  lemma SelectedAreLogged(c: Config, algs: seq<uint16>, ins: seq<Input>, codes: seq<Code>, overflowToo: bool)
    requires ValidConfig(c) && ValidInputs(ins)
    requires |codes| == |ins| && AllSupported(algs) && |algs| < 0x1_0000
    ensures LoggedFor(algs, Select(c, algs, ins, codes, overflowToo))
  {
    if ins != [] {
      var last := |ins| - 1;
      SelectedAreLogged(c, algs, ins[..last], codes[..last], overflowToo);
      DigestsAreForBanks(c.hash, algs, ins[last].data);
    }
  }

  /** The log holds exactly the events `logged`, within the log area, and the TPM's PCRs are the fold
      of the events `extended`. */
  predicate Accounted(c: Config, algs: seq<uint16>, pcrs: Pcrs, b: Boot, logged: seq<Event>, extended: seq<Event>)
    requires AllSupported(algs) && |algs| < 0x1_0000
  {
    && AllLoggable(logged)
    && b.log == Some(SpecIdRecord(algs) + PutEvents(logged))
    && |b.log.value| <= c.logSize
    && b.pcrs == Replay(c.hash, pcrs, extended)
  }

  /** One measurement: Ok adds its event to both histories, LogOverflow to the extended one only, and
      every other code to neither. */
  lemma MeasureAccounts(c: Config, algs: seq<uint16>, pcrs: Pcrs, b: Boot, logged: seq<Event>,
                        extended: seq<Event>, i: Input)
    requires ValidConfig(c) && ValidInput(i) && Banks(c.selection) == Some(algs)
    requires Accounted(c, algs, pcrs, b, logged, extended)
    ensures var (b1, code) := Measure(c, b, i);
            var e := EventOf(c.hash, algs, i);
            Accounted(c, algs, pcrs, b1,
                      if code == Ok then logged + [e] else logged,
                      if code == Ok || code == LogOverflow then extended + [e] else extended)
  {
    hide PutEvent, SpecIdRecord, Banks;
    var e := EventOf(c.hash, algs, i);
    DigestsAreForBanks(c.hash, algs, i.data);
    ReplayAppend(c.hash, pcrs, extended, e);
    PutEventsAppend(logged, e);
    assert SpecIdRecord(algs) + PutEvents(logged) + PutEvent(e) == SpecIdRecord(algs) + PutEvents(logged + [e]);
  }

  lemma {:induction false} RunAccounts(c: Config, algs: seq<uint16>, b: Boot, ins: seq<Input>)
    requires ValidConfig(c) && ValidInputs(ins) && Banks(c.selection) == Some(algs)
    requires Accounted(c, algs, b.pcrs, b, [], [])
    ensures var (b1, codes) := RunFrom(c, b, ins);
            Accounted(c, algs, b.pcrs, b1,
                      Select(c, algs, ins, codes, false), Select(c, algs, ins, codes, true))
  {
    hide Accounted, Banks, UsableBanks, Measure, EventOf;
    if ins != [] {
      var last := |ins| - 1;
      RunAccounts(c, algs, b, ins[..last]);
      var (b0, codes) := RunFrom(c, b, ins[..last]);
      MeasureAccounts(c, algs, b.pcrs, b0, Select(c, algs, ins[..last], codes, false),
                      Select(c, algs, ins[..last], codes, true), ins[last]);
      assert forall code :: (codes + [code])[..last] == codes;
    }
  }

  /** Attestation. After tpm_set_log_parameters succeeds, and whatever measurements follow, the log
      stays inside its area, decodes to the events whose measurement returned Ok, these are a
      subsequence of the events the TPM was extended with, and if no measurement overflowed the log then
      replaying the decoded log over the PCR values at log creation gives the TPM's PCR values. */
  lemma ReplayReproducesPcrs(c: Config, b: Boot, algs: seq<uint16>, ins: seq<Input>)
    requires ValidConfig(c) && ValidInputs(ins) && Banks(c.selection) == Some(algs)
    requires StartLog(c, b).1 == Ok
    ensures var (b1, codes) := RunFrom(c, StartLog(c, b).0, ins);
            && b1.log.Some? && |b1.log.value| <= c.logSize
            && var events := ReadLog(b1.log.value);
            && events == Some(Select(c, algs, ins, codes, false))
            && Subsequence(events.value, Select(c, algs, ins, codes, true))
            && b1.pcrs == Replay(c.hash, b.pcrs, Select(c, algs, ins, codes, true))
            && (LogOverflow !in codes ==> b1.pcrs == Replay(c.hash, b.pcrs, events.value))
  {
    hide SpecIdRecord, Select, ReadLog;
    var b0 := StartLog(c, b).0;
    assert SpecIdRecord(algs) + PutEvents([]) == SpecIdRecord(algs) == [] + SpecIdRecord(algs);
    RunAccounts(c, algs, b0, ins);
    var codes := RunFrom(c, b0, ins).1;
    SelectedAreLogged(c, algs, ins, codes, false);
    LoggedAmongExtended(c, algs, ins, codes);
    ReadLogUndoesPrint(algs, Select(c, algs, ins, codes, false));
  }
}
