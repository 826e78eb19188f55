/** The TPM 2.0 event log of lib/libtpm/tcgbios.c: the algorithms a bank can use, the digest list
    in its two byte orders, the record printer, and a reader that a verifier would use. */
module EventLog {
  import opened Bytes

  /** TPM2_ALG_* identifiers and their digest sizes; None for an algorithm the firmware does not know. */
  function DigestSize(alg: uint16): Option<nat> {
    match alg
    case 0x0004 => Some(20)   // SHA1
    case 0x000b => Some(32)   // SHA256
    case 0x000c => Some(48)   // SHA384
    case 0x000d => Some(64)   // SHA512
    case 0x0012 => Some(32)   // SM3-256
    case 0x0027 => Some(32)   // SHA3-256
    case 0x0028 => Some(48)   // SHA3-384
    case 0x0029 => Some(64)   // SHA3-512
    case _ => None
  }

  predicate Supported(alg: uint16) { DigestSize(alg).Some? }

  predicate AllSupported(algs: seq<uint16>) { forall i :: 0 <= i < |algs| ==> Supported(algs[i]) }

  function Size(alg: uint16): (n: nat)
    requires Supported(alg)
    ensures 20 <= n <= 64
  {
    DigestSize(alg).value
  }

  /** The firmware has hash code for the SHA-1 and SHA-2 algorithms only. */
  predicate Implemented(alg: uint16) { alg in {0x0004, 0x000b, 0x000c, 0x000d} }

  /** A family of hash functions, one per algorithm. */
  type HashFamily = (uint16, seq<byte>) -> seq<byte>

  ghost predicate Sized(hash: HashFamily) {
    forall alg: uint16, data: seq<byte> :: Implemented(alg) ==> |hash(alg, data)| == Size(alg)
  }

  /** What the firmware writes for a bank: its own hash, or 0xff bytes when it has no code for it. */
  function BankDigest(hash: HashFamily, alg: uint16, data: seq<byte>): (d: seq<byte>)
    requires Supported(alg)
  {
    if Implemented(alg) then hash(alg, data) else Fill(0xff, Size(alg))
  }

  datatype TaggedDigest = TaggedDigest(alg: uint16, digest: seq<byte>)

  predicate WellTagged(d: TaggedDigest) { Supported(d.alg) && |d.digest| == Size(d.alg) }

  predicate AllTagged(ds: seq<TaggedDigest>) { forall i :: 0 <= i < |ds| ==> WellTagged(ds[i]) }

  datatype Event = Event(pcr: uint32, kind: uint32, digests: seq<TaggedDigest>, data: seq<byte>)

  // ----- printing

  /** One TPMT_HA: big endian on the wire to the TPM, little endian in the log. */
  function PutDigest(d: TaggedDigest, bigEndian: bool): seq<byte> {
    (if bigEndian then Be16(d.alg) else Le16(d.alg)) + d.digest
  }

  function PutDigests(ds: seq<TaggedDigest>, bigEndian: bool): seq<byte> {
    if ds == [] then [] else PutDigest(ds[0], bigEndian) + PutDigests(ds[1..], bigEndian)
  }

  /** TPML_DIGEST_VALUES followed by its TPMT_HA entries. */
  function PutDigestList(ds: seq<TaggedDigest>, bigEndian: bool): seq<byte>
    requires |ds| < 0x1_0000_0000
  {
    (if bigEndian then Be32(|ds|) else Le32(|ds|)) + PutDigests(ds, bigEndian)
  }

  /** TCG_PCR_EVENT2: header, digest list, trailer, event data. */
  function PutEvent(e: Event): seq<byte>
    requires |e.digests| < 0x1_0000_0000 && |e.data| < 0x1_0000_0000
  {
    Le32(e.pcr) + Le32(e.kind) + PutDigestList(e.digests, false) + Le32(|e.data|) + e.data
  }

  predicate Loggable(e: Event) {
    AllTagged(e.digests) && |e.digests| < 0x1_0000_0000 && |e.data| < 0x1_0000_0000
  }

  predicate AllLoggable(es: seq<Event>) { forall i :: 0 <= i < |es| ==> Loggable(es[i]) }

  function PutEvents(es: seq<Event>): seq<byte>
    requires AllLoggable(es)
  {
    if es == [] then [] else assert Loggable(es[0]); PutEvent(es[0]) + PutEvents(es[1..])
  }

  const EV_NO_ACTION: uint32 := 3

  /** "Spec ID Event03" with its terminating zero. */
  function Signature(): (s: seq<byte>)
    ensures |s| == 16
  {
    [0x53, 0x70, 0x65, 0x63, 0x20, 0x49, 0x44, 0x20, 0x45, 0x76, 0x65, 0x6e, 0x74, 0x30, 0x33, 0x00]
  }

  /** Platform class 0, version 2.0, errata 2, uintn size 2. */
  function Version(): (s: seq<byte>)
    ensures |s| == 8
  {
    [0, 0, 0, 0, 0, 2, 2, 2]
  }

  /** vendorInfoSize. */
  const NO_VENDOR_DATA: seq<byte> := [0]

  function PutSizes(algs: seq<uint16>): (s: seq<byte>)
    requires AllSupported(algs)
    ensures |s| == 4 * |algs|
  {
    if algs == [] then [] else Le16(algs[0]) + Le16(Size(algs[0])) + PutSizes(algs[1..])
  }

  /** TCG_EfiSpecIdEventStruct with an empty vendor field. */
  function SpecIdEvent(algs: seq<uint16>): (s: seq<byte>)
    requires |algs| < 0x1_0000
    requires AllSupported(algs)
    ensures |s| == 29 + 4 * |algs|
  {
    Signature() + Version() + Le32(|algs|) + PutSizes(algs) + NO_VENDOR_DATA
  }

  /** The first record: PCR 0, EV_NO_ACTION, a zero SHA-1 digest, the Spec ID event. */
  function SpecIdRecord(algs: seq<uint16>): (s: seq<byte>)
    requires |algs| < 0x1_0000
    requires AllSupported(algs)
    ensures |s| == 61 + 4 * |algs|
  {
    Le32(0) + Le32(EV_NO_ACTION) + Fill(0, 20) + Le32(29 + 4 * |algs|) + SpecIdEvent(algs)
  }

  // ----- reading

  datatype Parsed<+T> = Bad | Good(value: T, rest: seq<byte>)

  function GetLe32(s: seq<byte>): Parsed<uint32> {
    if |s| < 4 then Bad else Good(FromLe32(s[..4]), s[4..])
  }

  function GetLe16(s: seq<byte>): Parsed<uint16> {
    if |s| < 2 then Bad else Good(FromLe16(s[..2]), s[2..])
  }

  function GetBytes(n: nat, s: seq<byte>): Parsed<seq<byte>> {
    if |s| < n then Bad else Good(s[..n], s[n..])
  }

  /** The size a first record announced for `alg`: the first entry with that id. */
  function Announced(sizes: seq<(uint16, uint16)>, alg: uint16): Option<nat> {
    if sizes == [] then None
    else if sizes[0].0 == alg then Some(sizes[0].1)
    else Announced(sizes[1..], alg)
  }

  function GetDigests(sizes: seq<(uint16, uint16)>, n: nat, s: seq<byte>): (r: Parsed<seq<TaggedDigest>>)
    ensures r.Good? ==> |r.rest| <= |s|
  {
    if n == 0 then Good([], s)
    else
      match GetLe16(s)
      case Bad => Bad
      case Good(alg, s1) =>
        match Announced(sizes, alg)
        case None => Bad
        case Some(size) =>
          match GetBytes(size, s1)
          case Bad => Bad
          case Good(digest, s2) =>
            match GetDigests(sizes, n - 1, s2)
            case Bad => Bad
            case Good(more, s3) => Good([TaggedDigest(alg, digest)] + more, s3)
  }

  function GetEvent(sizes: seq<(uint16, uint16)>, s: seq<byte>): (r: Parsed<Event>)
    ensures r.Good? ==> |r.rest| < |s|
  {
    match GetLe32(s)
    case Bad => Bad
    case Good(pcr, s1) =>
      match GetLe32(s1)
      case Bad => Bad
      case Good(kind, s2) =>
        match GetLe32(s2)
        case Bad => Bad
        case Good(n, s3) =>
          match GetDigests(sizes, n, s3)
          case Bad => Bad
          case Good(digests, s4) =>
            match GetLe32(s4)
            case Bad => Bad
            case Good(length, s5) =>
              match GetBytes(length, s5)
              case Bad => Bad
              case Good(data, s6) => Good(Event(pcr, kind, digests, data), s6)
  }

  /** Reads records until the bytes end. */
  function GetEvents(sizes: seq<(uint16, uint16)>, s: seq<byte>): Option<seq<Event>>
    decreases |s|
  {
    if s == [] then Some([])
    else
      match GetEvent(sizes, s)
      case Bad => None
      case Good(e, rest) =>
        match GetEvents(sizes, rest)
        case None => None
        case Some(es) => Some([e] + es)
  }

  function GetSizes(n: nat, s: seq<byte>): Parsed<seq<(uint16, uint16)>> {
    if n == 0 then Good([], s)
    else if |s| < 4 then Bad
    else
      match GetSizes(n - 1, s[4..])
      case Bad => Bad
      case Good(more, rest) => Good([(FromLe16(s[..2]), FromLe16(s[2..4]))] + more, rest)
  }

  /** The part of the Spec ID event after its fixed fields: `n` sizes, then a vendor field that must
      end where the announced event size says. */
  function GetAlgorithms(size: nat, n: nat, s: seq<byte>): Parsed<seq<(uint16, uint16)>> {
    match GetSizes(n, s)
    case Bad => Bad
    case Good(sizes, rest) =>
      if rest == [] then Bad
      else
        var vendor: int := rest[0];
        if size != 29 + 4 * |sizes| + vendor || |rest| < 1 + vendor then Bad
        else Good(sizes, rest[1 + vendor..])
  }

  predicate SpecIdPrefix(s: seq<byte>)
    requires |s| >= 61
  {
    s[..28] == Le32(0) + Le32(EV_NO_ACTION) + Fill(0, 20) && s[32..48] == Signature()
  }

  /** Reads the first record; the value is the list of announced digest sizes. */
  function GetSpecId(s: seq<byte>): Parsed<seq<(uint16, uint16)>> {
    if |s| < 61 || !SpecIdPrefix(s) then Bad
    else GetAlgorithms(FromLe32(s[28..32]), FromLe32(s[56..60]), s[60..])
  }

  /** A whole log: the announced sizes and the events after the first record. */
  function ReadLog(s: seq<byte>): Option<seq<Event>> {
    match GetSpecId(s)
    case Bad => None
    case Good(sizes, rest) => GetEvents(sizes, rest)
  }

  // ----- reading undoes printing

  function Announce(algs: seq<uint16>): (sizes: seq<(uint16, uint16)>)
    requires AllSupported(algs)
  {
    if algs == [] then [] else [(algs[0], Size(algs[0]))] + Announce(algs[1..])
  }

  lemma {:induction false} AnnouncedSize(algs: seq<uint16>, alg: uint16)
    requires AllSupported(algs)
    ensures Announced(Announce(algs), alg) == if alg in algs then DigestSize(alg) else None
  {
    if algs != [] {
      AnnouncedSize(algs[1..], alg);
      assert alg in algs <==> alg == algs[0] || alg in algs[1..];
    }
  }

  predicate ForBanks(algs: seq<uint16>, ds: seq<TaggedDigest>) {
    AllTagged(ds) && forall i :: 0 <= i < |ds| ==> ds[i].alg in algs
  }

  lemma ReadDigest(sizes: seq<(uint16, uint16)>, d: TaggedDigest, n: nat, tail: seq<byte>)
    requires Announced(sizes, d.alg) == Some(|d.digest|)
    ensures GetDigests(sizes, n + 1, PutDigest(d, false) + tail) ==
            match GetDigests(sizes, n, tail)
            case Bad => Bad
            case Good(more, rest) => Good([d] + more, rest)
  {
    var s := PutDigest(d, false) + tail;
    assert s == Le16(d.alg) + (d.digest + tail);
    SplitAt(Le16(d.alg), d.digest + tail);
    SplitAt(d.digest, tail);
  }

  lemma {:induction false} ReadDigests(algs: seq<uint16>, ds: seq<TaggedDigest>, rest: seq<byte>)
    requires AllSupported(algs)
    requires ForBanks(algs, ds)
    ensures GetDigests(Announce(algs), |ds|, PutDigests(ds, false) + rest) == Good(ds, rest)
  {
    hide PutDigest, Announce, Announced, DigestSize;
    if ds == [] {
      assert PutDigests(ds, false) + rest == rest;
    } else {
      var tail := PutDigests(ds[1..], false) + rest;
      assert PutDigests(ds, false) + rest == PutDigest(ds[0], false) + tail;
      AnnouncedSize(algs, ds[0].alg);
      ReadDigest(Announce(algs), ds[0], |ds| - 1, tail);
      ReadDigests(algs, ds[1..], rest);
      assert ds == [ds[0]] + ds[1..];
    }
  }

  lemma ReadLe32(v: uint32, rest: seq<byte>)
    ensures GetLe32(Le32(v) + rest) == Good(v, rest)
  {
    SplitAt(Le32(v), rest);
  }

  lemma ReadEvent(algs: seq<uint16>, e: Event, rest: seq<byte>)
    requires AllSupported(algs)
    requires Loggable(e) && ForBanks(algs, e.digests)
    ensures GetEvent(Announce(algs), PutEvent(e) + rest) == Good(e, rest)
    ensures |PutEvent(e)| >= 16
  {
    var s5 := e.data + rest;
    var s4 := Le32(|e.data|) + s5;
    var s3 := PutDigests(e.digests, false) + s4;
    var s2 := Le32(|e.digests|) + s3;
    var s1 := Le32(e.kind) + s2;
    assert PutEvent(e) + rest == Le32(e.pcr) + s1;
    ReadLe32(e.pcr, s1);
    ReadLe32(e.kind, s2);
    ReadLe32(|e.digests|, s3);
    ReadDigests(algs, e.digests, s4);
    ReadLe32(|e.data|, s5);
    SplitAt(e.data, rest);
  }

  predicate LoggedFor(algs: seq<uint16>, es: seq<Event>) {
    forall i :: 0 <= i < |es| ==> Loggable(es[i]) && ForBanks(algs, es[i].digests)
  }

  lemma ReadOneMore(sizes: seq<(uint16, uint16)>, s: seq<byte>, e: Event, rest: seq<byte>, es: seq<Event>)
    requires s != [] && GetEvent(sizes, s) == Good(e, rest)
    requires GetEvents(sizes, rest) == Some(es)
    ensures GetEvents(sizes, s) == Some([e] + es)
  {
    hide GetEvent;
  }

  lemma {:induction false} ReadEvents(algs: seq<uint16>, es: seq<Event>)
    requires AllSupported(algs)
    requires LoggedFor(algs, es)
    ensures GetEvents(Announce(algs), PutEvents(es)) == Some(es)
  {
    hide PutEvent, GetEvent;
    if es != [] {
      ReadEvents(algs, es[1..]);
      ReadEvent(algs, es[0], PutEvents(es[1..]));
      ReadOneMore(Announce(algs), PutEvents(es), es[0], PutEvents(es[1..]), es[1..]);
      assert es == [es[0]] + es[1..];
    }
  }

  lemma {:induction false} ReadSizes(algs: seq<uint16>, rest: seq<byte>)
    requires AllSupported(algs)
    ensures GetSizes(|algs|, PutSizes(algs) + rest) == Good(Announce(algs), rest)
  {
    hide Le16, FromLe16, DigestSize;
    if algs == [] {
      assert PutSizes(algs) + rest == rest;
    } else {
      var s := PutSizes(algs) + rest;
      var tail := PutSizes(algs[1..]) + rest;
      assert s == (Le16(algs[0]) + Le16(Size(algs[0]))) + tail;
      assert s[..2] == Le16(algs[0]) && s[2..4] == Le16(Size(algs[0])) && s[4..] == tail;
      ReadSizes(algs[1..], rest);
    }
  }

  lemma Layout(head: seq<byte>, size: seq<byte>, sign: seq<byte>, version: seq<byte>, count: seq<byte>,
               sizes: seq<byte>, rest: seq<byte>)
    requires |head| == 28 && |size| == |count| == 4 && |sign| == 16 && |version| == 8
    ensures var s := head + size + (sign + version + count + sizes + NO_VENDOR_DATA) + rest;
            && s[..28] == head && s[28..32] == size && s[32..48] == sign && s[56..60] == count
            && s[60..] == sizes + (NO_VENDOR_DATA + rest)
  {
  }

  lemma ReadAlgorithms(algs: seq<uint16>, rest: seq<byte>)
    requires AllSupported(algs)
    ensures GetAlgorithms(29 + 4 * |algs|, |algs|, PutSizes(algs) + (NO_VENDOR_DATA + rest))
            == Good(Announce(algs), rest)
  {
    hide PutSizes, GetSizes, Announce;
    ReadSizes(algs, NO_VENDOR_DATA + rest);
    AnnounceLength(algs);
    assert (NO_VENDOR_DATA + rest)[1..] == rest;
  }

  lemma ReadFields(s: seq<byte>, size: uint32, n: uint32)
    requires |s| >= 61 && SpecIdPrefix(s)
    requires s[28..32] == Le32(size) && s[56..60] == Le32(n)
    ensures GetSpecId(s) == GetAlgorithms(size, n, s[60..])
  {
  }

  lemma ReadSpecId(algs: seq<uint16>, rest: seq<byte>)
    requires |algs| < 0x1_0000
    requires AllSupported(algs)
    ensures GetSpecId(SpecIdRecord(algs) + rest) == Good(Announce(algs), rest)
  {
    hide PutSizes, GetAlgorithms, Announce, Le32, FromLe32, Fill, Signature, Version, Size;
    Layout(Le32(0) + Le32(EV_NO_ACTION) + Fill(0, 20), Le32(29 + 4 * |algs|), Signature(), Version(), Le32(|algs|),
           PutSizes(algs), rest);
    ReadFields(SpecIdRecord(algs) + rest, 29 + 4 * |algs|, |algs|);
    ReadAlgorithms(algs, rest);
  }

  lemma {:induction false} AnnounceLength(algs: seq<uint16>)
    requires AllSupported(algs)
    ensures |Announce(algs)| == |algs|
  {
    if algs != [] {
      AnnounceLength(algs[1..]);
    }
  }

  /** Decoding a log with the digest sizes its own first record announces gives back exactly the
      events that were appended. */
  lemma ReadLogUndoesPrint(algs: seq<uint16>, es: seq<Event>)
    requires |algs| < 0x1_0000
    requires AllSupported(algs)
    requires LoggedFor(algs, es)
    ensures ReadLog(SpecIdRecord(algs) + PutEvents(es)) == Some(es)
  {
    ReadSpecId(algs, PutEvents(es));
    ReadEvents(algs, es);
  }

  // ----- the two byte orders of a digest list

  /** The TPM's reading of the big-endian digest list; it knows the digest sizes itself. */
  function TpmDigests(n: nat, s: seq<byte>): Option<seq<TaggedDigest>> {
    if n == 0 then (if s == [] then Some([]) else None)
    else if |s| < 2 then None
    else
      var alg := FromBe16(s[..2]);
      match DigestSize(alg)
      case None => None
      case Some(size) =>
        if |s| < 2 + size then None
        else
          match TpmDigests(n - 1, s[2 + size..])
          case None => None
          case Some(more) => Some([TaggedDigest(alg, s[2..2 + size])] + more)
  }

  function TpmDigestList(s: seq<byte>): Option<seq<TaggedDigest>> {
    if |s| < 4 then None else TpmDigests(FromBe32(s[..4]), s[4..])
  }

  lemma {:induction false} TpmReadsDigests(ds: seq<TaggedDigest>)
    requires AllTagged(ds)
    ensures TpmDigests(|ds|, PutDigests(ds, true)) == Some(ds)
    ensures |PutDigests(ds, true)| == |PutDigests(ds, false)|
  {
    if ds != [] {
      var s := PutDigests(ds, true);
      var tail := PutDigests(ds[1..], true);
      SplitAt(PutDigest(ds[0], true), tail);
      assert s[..2] == Be16(ds[0].alg);
      assert s[2..2 + |ds[0].digest|] == ds[0].digest;
      TpmReadsDigests(ds[1..]);
      assert ds == [TaggedDigest(ds[0].alg, ds[0].digest)] + ds[1..];
    }
  }

  /** The TPM reads from the big-endian list exactly the digests that the little-endian list of the
      same length carries in the log. */
  lemma SameDigestsInBothOrders(algs: seq<uint16>, ds: seq<TaggedDigest>)
    requires AllSupported(algs)
    requires ForBanks(algs, ds) && |ds| < 0x1_0000_0000
    ensures |PutDigestList(ds, true)| == |PutDigestList(ds, false)|
    ensures TpmDigestList(PutDigestList(ds, true)) == Some(ds)
    ensures GetDigests(Announce(algs), |ds|, PutDigestList(ds, false)[4..]) == Good(ds, [])
  {
    TpmReadsDigests(ds);
    SplitAt(Be32(|ds|), PutDigests(ds, true));
    SplitAt(Le32(|ds|), PutDigests(ds, false));
    ReadDigests(algs, ds, []);
    assert PutDigests(ds, false) + [] == PutDigests(ds, false);
  }

  // ----- appending

  lemma {:induction false} PutDigestsAppend(ds: seq<TaggedDigest>, d: TaggedDigest, bigEndian: bool)
    ensures PutDigests(ds + [d], bigEndian) == PutDigests(ds, bigEndian) + PutDigest(d, bigEndian)
  {
    if ds == [] {
      assert [d][1..] == [];
      assert PutDigests([], bigEndian) == [];
      assert ds + [d] == [d];
    } else {
      assert (ds + [d])[1..] == ds[1..] + [d];
      PutDigestsAppend(ds[1..], d, bigEndian);
    }
  }

  lemma {:induction false} PutEventsAppend(es: seq<Event>, e: Event)
    requires Loggable(e) && AllLoggable(es)
    ensures PutEvents(es + [e]) == PutEvents(es) + PutEvent(e)
  {
    if es == [] {
      assert es + [e] == [e];
      assert [e][1..] == [];
    } else {
      assert (es + [e])[1..] == es[1..] + [e];
      PutEventsAppend(es[1..], e);
    }
  }

  lemma {:induction false} PutSizesAppend(algs: seq<uint16>, alg: uint16)
    requires Supported(alg) && AllSupported(algs)
    ensures AllSupported(algs + [alg])
    ensures PutSizes(algs + [alg]) == PutSizes(algs) + Le16(alg) + Le16(Size(alg))
  {
    if algs == [] {
      assert algs + [alg] == [alg];
      assert [alg][1..] == [];
    } else {
      assert (algs + [alg])[1..] == algs[1..] + [alg];
      PutSizesAppend(algs[1..], alg);
    }
  }
}
