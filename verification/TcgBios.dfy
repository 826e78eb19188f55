/** lib/libtpm/tcgbios.c in its own form: the firmware's TPM state, the buffers it fills and the log
    area it appends to. Its methods are proved against the step functions of MeasuredBoot. */
module TcgBios {
  import opened Bytes
  import opened EventLog
  import opened MeasuredBoot

  /** sizeof the Spec ID event buffer and the offset of its digestSizes. */
  const SPEC_ID_SIZE := 1504
  const SPEC_ID_SIZES := 28

  // ----- the extend command

  /** TPM2_PCR_Extend with the empty-password session. */
  function ExtendCommand(pcr: uint32, digestList: seq<byte>): (cmd: seq<byte>)
    requires |digestList| < 0x1_0000
    ensures |cmd| == 27 + |digestList|
  {
    Be16(0x8002) + Be32(27 + |digestList|) + Be32(0x182) + Be32(pcr)
    + Be32(9) + Be32(0x4000_0009) + Be16(0) + [1] + Be16(0) + digestList
  }

  datatype Command = Command(pcr: uint32, digests: seq<TaggedDigest>)

  /** How the TPM reads an extend command. */
  function ReadCommand(cmd: seq<byte>): Option<Command> {
    if |cmd| < 27 || cmd[..2] != Be16(0x8002) || FromBe32(cmd[2..6]) != |cmd| || FromBe32(cmd[6..10]) != 0x182
    then None
    else
      match TpmDigestList(cmd[27..])
      case None => None
      case Some(ds) => Some(Command(FromBe32(cmd[10..14]), ds))
  }

  lemma CommandFields(a: seq<byte>, total: seq<byte>, ordinal: seq<byte>, pcr: seq<byte>, b: seq<byte>,
                      c: seq<byte>, d: seq<byte>, e: seq<byte>, f: seq<byte>, rest: seq<byte>)
    requires |a| == |d| == |f| == 2 && |e| == 1
    requires |total| == |ordinal| == |pcr| == |b| == |c| == 4
    ensures var s := a + total + ordinal + pcr + b + c + d + e + f + rest;
            && s[..2] == a && s[2..6] == total && s[6..10] == ordinal && s[10..14] == pcr && s[27..] == rest
  {
  }

  lemma TpmReadsCommand(pcr: uint32, ds: seq<TaggedDigest>)
    requires AllTagged(ds) && |PutDigests(ds, true)| < 0xf000 && |ds| < 0x1_0000
    ensures ReadCommand(ExtendCommand(pcr, PutDigestList(ds, true))) == Some(Command(pcr, ds))
  {
    hide Be16, Be32, FromBe32, PutDigests, TpmDigests;
    TpmReadsDigests(ds);
    var list := PutDigestList(ds, true);
    SplitAt(Be32(|ds|), PutDigests(ds, true));
    CommandFields(Be16(0x8002), Be32(27 + |list|), Be32(0x182), Be32(pcr), Be32(9), Be32(0x4000_0009), Be16(0), [1],
                  Be16(0), list);
  }

  /** The device: it executes an extend command that it accepts, and nothing else changes its PCRs. */
  class Tpm {
    const hash: HashFamily
    var pcrs: Pcrs

    constructor (hash: HashFamily, pcrs: Pcrs)
      ensures this.hash == hash && this.pcrs == pcrs
    {
      this.hash, this.pcrs := hash, pcrs;
    }

    method Transmit(cmd: seq<byte>, accepted: bool) returns (ok: bool)
      modifies this
      ensures ok == (accepted && ReadCommand(cmd).Some?)
      ensures pcrs == if ok then Extend(hash, old(pcrs), ReadCommand(cmd).value.pcr, ReadCommand(cmd).value.digests)
                      else old(pcrs)
    {
      ok := accepted && ReadCommand(cmd).Some?;
      if ok {
        pcrs := Extend(hash, pcrs, ReadCommand(cmd).value.pcr, ReadCommand(cmd).value.digests);
      }
    }
  }

  // ----- digest lengths

  lemma {:induction false} DigestBytesAppend(a: seq<uint16>, b: seq<uint16>)
    requires AllSupported(a) && AllSupported(b)
    ensures AllSupported(a + b) && DigestBytes(a + b) == DigestBytes(a) + DigestBytes(b)
  {
    if a == [] {
      assert a + b == b;
    } else {
      assert (a + b)[1..] == a[1..] + b;
      DigestBytesAppend(a[1..], b);
    }
  }

  lemma NoDigests(hash: HashFamily, data: seq<byte>, bigEndian: bool)
    ensures DigestBytes([]) == 0 && PutDigests(Digests(hash, [], data), bigEndian) == []
  {
  }

  /** Writing one more digest behind those of `algs` extends the digest list by that bank. */
  lemma OneMoreDigest(hash: HashFamily, algs: seq<uint16>, alg: uint16, data: seq<byte>, bigEndian: bool)
    requires Sized(hash) && AllSupported(algs) && Supported(alg)
    ensures AllSupported(algs + [alg])
    ensures var ds := Digests(hash, algs, data);
            PutDigests(Digests(hash, algs + [alg], data), bigEndian)
            == PutDigests(ds, bigEndian)
               + ((if bigEndian then Be16(alg) else Le16(alg)) + BankDigest(hash, alg, data))
    ensures DigestBytes(algs + [alg]) == DigestBytes(algs) + 2 + Size(alg)
  {
    var d := TaggedDigest(alg, BankDigest(hash, alg, data));
    DigestBytesAppend(algs, [alg]);
    assert DigestBytes([alg]) == 2 + Size(alg) by {
      assert [alg][1..] == [];
    }
    assert Digests(hash, algs + [alg], data) == Digests(hash, algs, data) + [d];
    PutDigestsAppend(Digests(hash, algs, data), d, bigEndian);
  }

  lemma PrependNothing(rest: Option<seq<uint16>>)
    ensures Prepend([], rest) == rest
  {
    if rest.Some? { assert [] + rest.value == rest.value; }
  }

  lemma WalkFits(prefix: seq<uint16>, alg: uint16, rest: Option<seq<uint16>>)
    requires AllSupported(prefix) && Supported(alg) && (rest.Some? ==> AllSupported(rest.value))
    ensures match Prepend(prefix, Prepend([alg], rest))
            case None => true
            case Some(algs) =>
              && AllSupported(algs) && algs == prefix + [alg] + rest.value
              && DigestBytes(algs) >= DigestBytes(prefix) + 2 + Size(alg)
  {
    if rest.Some? {
      assert prefix + ([alg] + rest.value) == prefix + [alg] + rest.value;
      DigestBytesAppend(prefix, [alg]);
      assert [alg][1..] == [];
      DigestBytesAppend(prefix + [alg], rest.value);
    }
  }

  lemma BanksReachTpm(hash: HashFamily, algs: seq<uint16>, data: seq<byte>, pcr: uint32)
    requires Sized(hash) && AllSupported(algs) && DigestBytes(algs) <= ENTRY_SIZE && |algs| < 0x1_0000
    ensures var ds := Digests(hash, algs, data);
            |PutDigestList(ds, true)| < 0x1_0000
            && ReadCommand(ExtendCommand(pcr, PutDigestList(ds, true))) == Some(Command(pcr, ds))
  {
    DigestsLength(hash, algs, data, true);
    DigestsAreForBanks(hash, algs, data);
    TpmReadsCommand(pcr, Digests(hash, algs, data));
  }

  lemma FilledIn(before: seq<byte>, fixed: seq<byte>, sizes: seq<byte>, count: seq<byte>, after: seq<byte>)
    requires |fixed| == 24 && |count| == 4 && SPEC_ID_SIZES + |sizes| < |before| && before[..24] == fixed
    requires after ==
             Patch(Patch(Patch(before, SPEC_ID_SIZES, sizes), 24, count), SPEC_ID_SIZES + |sizes|, NO_VENDOR_DATA)
    ensures after[..SPEC_ID_SIZES + |sizes| + 1] == fixed + count + sizes + NO_VENDOR_DATA
  {
    assert forall i :: 0 <= i < 24 ==> fixed[i] == before[..24][i];
  }

  // ----- the firmware

  class Firmware {
    const tpm: Tpm
    /** tpm20_pcr_selection, as tpm20_get_pcrbanks stored it. */
    const selection: seq<byte>
    var working: bool
    /** log_base and log_area_size; null before tpm_set_log_parameters. */
    var log: array?<byte>
    /** log_area_next_entry, as an offset from log_base. */
    var next: nat

    ghost predicate Valid()
      reads this
    {
      Sized(tpm.hash) && 7 <= |selection| <= 113 && (log != null ==> next <= log.Length)
    }

    ghost function Setup(): Config
      reads this
    {
      Config(tpm.hash, selection, if log == null then 0 else log.Length)
    }

    ghost function State(): Boot
      requires Valid()
      reads this, tpm, log
    {
      Boot(tpm.pcrs, if log == null then None else Some(log[..next]), working)
    }

    constructor (tpm: Tpm, selection: seq<byte>)
      requires Sized(tpm.hash) && 7 <= |selection| <= 113
      ensures Valid() && this.tpm == tpm && this.selection == selection
      ensures State() == Boot(tpm.pcrs, None, true)
    {
      this.tpm, this.selection := tpm, selection;
      working, log, next := true, null, 0;
    }

    /** The body of the digest loop: one TPMT_HA at `dest`. */
    method PutBank(le: array<byte>, dest: nat, ghost algs: seq<uint16>, alg: uint16, data: seq<byte>, bigEndian: bool)
      requires Valid() && AllSupported(algs) && Supported(alg) && dest + 2 + Size(alg) <= le.Length
      modifies le
      ensures AllSupported(algs + [alg])
      ensures DigestBytes(algs + [alg]) == DigestBytes(algs) + 2 + Size(alg)
      ensures var written := PutDigests(Digests(tpm.hash, algs, data), bigEndian);
              var now := PutDigests(Digests(tpm.hash, algs + [alg], data), bigEndian);
              && |now| == |written| + 2 + Size(alg) && now[..|written|] == written
              && le[..] == Patch(old(le[..]), dest, now[|written|..])
    {
      var id := if bigEndian then Be16(alg) else Le16(alg);
      var digest := BankDigest(tpm.hash, alg, data);
      ghost var before := le[..];
      Store(le, dest, id);
      Store(le, dest + 2, digest);
      PatchAppend(before, dest, id, digest);
      OneMoreDigest(tpm.hash, algs, alg, data, bigEndian);
      SplitAt(PutDigests(Digests(tpm.hash, algs, data), bigEndian), id + digest);
    }

    /** The loop of tpm20_build_digest over the PCR selection. */
    method WriteDigests(le: array<byte>, data: seq<byte>, bigEndian: bool)
      returns (ok: bool, dest: nat, numAlgs: nat)
      requires Valid() && le.Length == ENTRY_SIZE && le != log
      modifies le
      ensures ok == UsableBanks(selection).Some?
      ensures le[..FIRST_DIGEST] == old(le[..FIRST_DIGEST])
      ensures ok ==>
                var algs := UsableBanks(selection).value;
                && numAlgs == |algs| && dest == FIRST_DIGEST + DigestBytes(algs) <= ENTRY_SIZE
                && |PutDigests(Digests(tpm.hash, algs, data), bigEndian)| == DigestBytes(algs)
                && le[..] == Patch(old(le[..]), FIRST_DIGEST, PutDigests(Digests(tpm.hash, algs, data), bigEndian))
    {
      hide DigestSize, Be16, Le16, Be32, Le32, FromBe32, FromBe16, PutDigests, Digests, BankDigest, DigestBytes, Patch;
      var n: nat := FromBe32(selection[..4]);
      var pos: nat, i: nat := 4, 0;
      dest, numAlgs := FIRST_DIGEST, 0;
      ghost var algs: seq<uint16> := [];
      ghost var before := le[..];
      ghost var written: seq<byte> := [];
      NoDigests(tpm.hash, data, bigEndian);
      PrependNothing(Walk(selection, 4, n));
      while i < n
        invariant 0 <= i <= n && pos <= |selection| && AllSupported(algs)
        invariant numAlgs == |algs| && 4 + 3 * |algs| <= pos
        invariant Banks(selection) == Prepend(algs, Walk(selection, pos, n - i))
        invariant written == PutDigests(Digests(tpm.hash, algs, data), bigEndian)
        invariant |written| == DigestBytes(algs) && dest == FIRST_DIGEST + |written| <= ENTRY_SIZE
        invariant le[..] == Patch(before, FIRST_DIGEST, written)
      {
        if pos + 3 > |selection| || pos + 3 + selection[pos + 2] as int > |selection| {
          break;
        }
        var nextPos := pos + 3 + selection[pos + 2] as int;
        if selection[pos + 2] == 0 || selection[pos + 3] == 0 {
          pos, i := nextPos, i + 1;
          continue;
        }
        var alg := FromBe16(selection[pos..pos + 2]);
        if !Supported(alg) {
          return false, dest, numAlgs;
        }
        ghost var rest := Walk(selection, nextPos, n - i - 1);
        WalkFits(algs, alg, rest);
        if dest + 2 + Size(alg) > le.Length {
          return false, dest, numAlgs;
        }
        PutBank(le, dest, algs, alg, data, bigEndian);
        ghost var now := PutDigests(Digests(tpm.hash, algs + [alg], data), bigEndian);
        PatchAppend(before, FIRST_DIGEST, written, now[|written|..]);
        assert now == written + now[|written|..];
        written := now;
        algs := algs + [alg];
        dest, pos, i, numAlgs := dest + 2 + Size(alg), nextPos, i + 1, numAlgs + 1;
      }
      if pos != |selection| {
        return false, dest, numAlgs;
      }
      assert algs + [] == algs;
      return true, dest, numAlgs;
    }

    /** tpm20_build_digest. */
    method BuildDigest(le: array<byte>, data: seq<byte>, bigEndian: bool) returns (r: int)
      requires Valid() && le.Length == ENTRY_SIZE && le != log
      modifies le
      ensures r == match UsableBanks(selection) case None => -1 case Some(algs) => 4 + DigestBytes(algs)
      ensures le[..8] == old(le[..8])
      ensures r >= 0 ==>
                var list := PutDigestList(Digests(tpm.hash, UsableBanks(selection).value, data), bigEndian);
                |list| == r && le[..] == Patch(old(le[..]), 8, list)
    {
      hide Be32, Le32, PutDigests, Digests, DigestBytes, UsableBanks;
      ghost var before := le[..];
      var ok, dest, numAlgs := WriteDigests(le, data, bigEndian);
      assert le[..8] == le[..FIRST_DIGEST][..8] && before[..8] == before[..FIRST_DIGEST][..8];
      if !ok {
        return -1;
      }
      ghost var written := PutDigests(Digests(tpm.hash, UsableBanks(selection).value, data), bigEndian);
      var count := if bigEndian then Be32(numAlgs) else Le32(numAlgs);
      Store(le, 8, count);
      assert Patch(Patch(before, FIRST_DIGEST, written), 8, count) == Patch(before, 8, count + written);
      return dest - 8;
    }

    /** The loop of tpm20_write_EfiSpecIdEventStruct over the PCR selection. */
    method WriteSizes(event: array<byte>) returns (ok: bool, numAlgs: nat)
      requires Valid() && event.Length == SPEC_ID_SIZE && event != log
      modifies event
      ensures ok == Banks(selection).Some?
      ensures ok ==>
                && numAlgs == |Banks(selection).value|
                && SPEC_ID_SIZES + 4 * numAlgs <= event.Length
                && event[..] == Patch(old(event[..]), SPEC_ID_SIZES, PutSizes(Banks(selection).value))
    {
      hide DigestSize, Le16, Le32, FromBe32, FromBe16, PutSizes, Patch, DigestBytes;
      var n: nat := FromBe32(selection[..4]);
      var pos: nat, i: nat := 4, 0;
      numAlgs := 0;
      ghost var algs: seq<uint16> := [];
      ghost var before := event[..];
      PrependNothing(Walk(selection, 4, n));
      while i < n
        invariant 0 <= i <= n && pos <= |selection| && AllSupported(algs)
        invariant numAlgs == |algs| <= i && 4 + 3 * i <= pos
        invariant Banks(selection) == Prepend(algs, Walk(selection, pos, n - i))
        invariant event[..] == Patch(before, SPEC_ID_SIZES, PutSizes(algs))
      {
        if pos + 3 > |selection| || pos + 3 + selection[pos + 2] as int > |selection| {
          break;
        }
        var nextPos := pos + 3 + selection[pos + 2] as int;
        if selection[pos + 2] == 0 || selection[pos + 3] == 0 {
          pos, i := nextPos, i + 1;
          continue;
        }
        var alg := FromBe16(selection[pos..pos + 2]);
        if !Supported(alg) {
          return false, numAlgs;
        }
        WalkFits(algs, alg, Walk(selection, nextPos, n - i - 1));
        if SPEC_ID_SIZES + 4 * (i + 1) > event.Length - 1 {
          // not reached: the selection has at most 36 entries
          return false, numAlgs;
        }
        PutSize(event, before, numAlgs, algs, alg);
        algs := algs + [alg];
        pos, i, numAlgs := nextPos, i + 1, numAlgs + 1;
      }
      if pos != |selection| {
        return false, numAlgs;
      }
      assert algs + [] == algs;
      return true, numAlgs;
    }

    /** One algorithm id and digest size. */
    method PutSize(event: array<byte>, ghost before: seq<byte>, numAlgs: nat, ghost algs: seq<uint16>, alg: uint16)
      requires AllSupported(algs) && Supported(alg) && numAlgs == |algs|
      requires event.Length == |before| && SPEC_ID_SIZES + 4 * (numAlgs + 1) <= event.Length
      requires event[..] == Patch(before, SPEC_ID_SIZES, PutSizes(algs))
      modifies event
      ensures event[..] == Patch(before, SPEC_ID_SIZES, PutSizes(algs + [alg]))
    {
      hide DigestSize, Le16, PutSizes, Patch;
      var entry := Le16(alg) + Le16(Size(alg));
      Store(event, SPEC_ID_SIZES + 4 * numAlgs, entry);
      PatchAppend(before, SPEC_ID_SIZES, PutSizes(algs), entry);
      PutSizesAppend(algs, alg);
      assert PutSizes(algs) + entry == PutSizes(algs) + Le16(alg) + Le16(Size(alg));
    }

    /** Fills the Spec ID event: fixed fields, digest sizes, their number, an empty vendor field. */
    method FillSpecId(event: array<byte>) returns (ok: bool, size: nat)
      requires Valid() && event.Length == SPEC_ID_SIZE && event != log
      modifies event
      ensures ok == Banks(selection).Some?
      ensures ok ==> size <= event.Length && event[..size] == SpecIdEvent(Banks(selection).value)
    {
      hide Le32, Signature, Version, PutSizes, Banks;
      Store(event, 0, Signature() + Version());
      ghost var before := event[..];
      var walked, numAlgs := WriteSizes(event);
      if !walked {
        return false, 0;
      }
      ghost var sizes := PutSizes(Banks(selection).value);
      Store(event, 24, Le32(numAlgs));
      size := SPEC_ID_SIZES + 4 * numAlgs;
      event[size] := 0;
      size := size + 1;
      FilledIn(before, Signature() + Version(), sizes, Le32(numAlgs), event[..]);
      return true, size;
    }

    /** tpm20_write_EfiSpecIdEventStruct. */
    method WriteSpecId() returns (code: Code)
      requires Valid() && log != null && next == 0
      modifies this`next, log
      ensures Valid()
      ensures (State(), code) ==
              match Banks(selection)
              case None => (old(State()), GeneralError)
              case Some(algs) => AppendRecord(Setup(), old(State()), SpecIdRecord(algs))
    {
      hide Le32, Fill, SpecIdEvent, Banks;
      var le := new byte[ENTRY_SIZE](_ => 0);
      Store(le, 0, Le32(0));
      Store(le, 4, Le32(EV_NO_ACTION));
      Store(le, 8, Fill(0, 20));
      assert le[..28] == Le32(0) + Le32(EV_NO_ACTION) + Fill(0, 20);
      var event := new byte[SPEC_ID_SIZE](_ => 0);
      var ok, size := FillSpecId(event);
      if !ok {
        return GeneralError;
      }
      code := LogEventLong(le, 20, event[..size]);
    }

    /** tpm_set_log_parameters. */
    method SetLogParameters(area: array<byte>) returns (code: Code)
      requires Valid()
      modifies this, area
      ensures Valid() && log == area
      ensures (State(), code) == StartLog(Setup(), old(State()))
    {
      log, next := area, 0;
      code := WriteSpecId();
      if code != Ok {
        working := false;
      }
    }

    /** tpm20_extend: sends the big-endian digest list of the entry to the TPM. */
    method ExtendPcr(le: array<byte>, digestLen: nat, accepted: bool) returns (ok: bool)
      requires Valid() && 8 + digestLen <= le.Length <= ENTRY_SIZE
      modifies tpm
      ensures var cmd := ReadCommand(ExtendCommand(FromLe32(le[..4]), le[8..8 + digestLen]));
              && ok == (accepted && cmd.Some?)
              && tpm.pcrs == if ok then Extend(tpm.hash, old(tpm.pcrs), cmd.value.pcr, cmd.value.digests)
                             else old(tpm.pcrs)
    {
      var cmd := ExtendCommand(FromLe32(le[..4]), le[8..8 + digestLen]);
      ok := tpm.Transmit(cmd, accepted);
    }

    /** tpm_log_event_long: appends header, digest bytes, event size and event data, or nothing. */
    method LogEventLong(entry: array<byte>, digestLen: nat, event: seq<byte>) returns (code: Code)
      requires Valid() && 8 + digestLen <= entry.Length && entry != log && |event| < 0x1_0000_0000
      modifies this`next, log
      ensures Valid()
      ensures (State(), code) ==
              AppendRecord(Setup(), old(State()), entry[..8 + digestLen] + Le32(|event|) + event)
    {
      hide Patch, Le32;
      if log == null {
        return LogOverflow;
      }
      var size := 8 + digestLen + 4 + |event|;
      if next + size > log.Length {
        return LogOverflow;
      }
      ghost var before := log[..];
      var head, trailer := entry[..8 + digestLen], Le32(|event|);
      Store(log, next, head);
      Store(log, next + 8 + digestLen, trailer);
      PatchAppend(before, next, head, trailer);
      if |event| > 0 {
        Store(log, next + 8 + digestLen + 4, event);
        PatchAppend(before, next, head + trailer, event);
      } else {
        assert head + trailer + event == head + trailer;
      }
      assert log[..] == Patch(before, next, head + trailer + event);
      PatchedPrefix(before, next, head + trailer + event);
      assert log[..next + size] == log[..][..next + size];
      next := next + size;
      return Ok;
    }

    /** tpm_add_measurement_to_log. */
    method AddMeasurement(pcr: uint32, kind: uint32, info: seq<byte>, data: seq<byte>, accepted: bool)
      returns (code: Code)
      requires Valid() && ValidInput(Input(pcr, kind, info, data, accepted))
      modifies this, log, tpm
      ensures Valid() && log == old(log)
      ensures (State(), code) == Measure(Setup(), old(State()), Input(pcr, kind, info, data, accepted))
    {
      hide PutDigestList, Digests, DigestBytes, Le32, Be32, FromLe32, ReadCommand, ExtendCommand, Banks;
      var le := new byte[ENTRY_SIZE](_ => 0);
      Store(le, 0, Le32(pcr));
      Store(le, 4, Le32(kind));
      assert le[..8] == Le32(pcr) + Le32(kind);
      var n := BuildDigest(le, data, true);
      if n < 0 {
        return GeneralError;
      }
      ghost var ds := Digests(tpm.hash, UsableBanks(selection).value, data);
      assert le[..4] == le[..8][..4] == Le32(pcr);
      assert le[8..8 + n] == PutDigestList(ds, true);
      BanksReachTpm(tpm.hash, UsableBanks(selection).value, data, pcr);
      var ok := ExtendPcr(le, n, accepted);
      if !ok {
        working := false;
        return CommandError;
      }
      n := BuildDigest(le, data, false);
      assert le[..8 + n] == Le32(pcr) + Le32(kind) + PutDigestList(ds, false);
      code := LogEventLong(le, n, info);
    }
  }
}
