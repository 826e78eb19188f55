/** The hash functions that lib/libtpm/tcgbios.c links in, as the family of the measured-boot model. */
module FirmwareHashes {
  import opened Bytes
  import opened EventLog
  import opened MeasuredBoot
  import opened ShaPadding
  import Sha1
  import Sha256
  import Sha512

  /** The digests of FIPS 180-4. */
  function Standard(alg: uint16, data: seq<byte>): seq<byte>
    requires Implemented(alg) && |data| < 0x2000_0000_0000_0000
  {
    if alg == 0x0004 then Sha1.Hash(data)
    else if alg == 0x000b then Sha256.Hash(data)
    else if alg == 0x000c then Sha512.Hash384(data)
    else Sha512.Hash512(data)
  }

  /** What the firmware computes. The length of the data has 32 bits; longer data, and other algorithms, have no
      digest. */
  function Linked(alg: uint16, data: seq<byte>): seq<byte> {
    if !Implemented(alg) || |data| >= 0x1_0000_0000 then NoDigest(alg)
    else if alg == 0x000b then Sha256.HashWrapped(data)
    else Standard(alg, data)
  }

  function NoDigest(alg: uint16): (d: seq<byte>)
    ensures Implemented(alg) ==> |d| == Size(alg)
  {
    if Implemented(alg) then Fill(0, Size(alg)) else []
  }

  lemma StandardSize(alg: uint16, data: seq<byte>)
    requires Implemented(alg) && |data| < 0x2000_0000_0000_0000
    ensures |Standard(alg, data)| ==
            if alg == 0x0004 then 20 else if alg == 0x000b then 32 else if alg == 0x000c then 48 else 64
  {
    hide Sha1.Hash, Sha256.Hash, Sha512.Hash384, Sha512.Hash512;
  }

  lemma SizesAre(alg: uint16)
    requires Implemented(alg)
    ensures Size(alg) == if alg == 0x0004 then 20 else if alg == 0x000b then 32 else if alg == 0x000c then 48 else 64
  {
  }

  lemma LinkedSize(alg: uint16, data: seq<byte>, n: nat)
    requires Implemented(alg) && Supported(alg) && n == Size(alg)
    ensures |Linked(alg, data)| == n
  {
    hide Standard, Sha256.HashWrapped;
    SizesAre(alg);
    if |data| < 0x1_0000_0000 { StandardSize(alg, data); }
  }

  /** The family has the digest sizes that the log announces. */
  lemma LinkedIsSized()
    ensures Sized(Linked)
  {
    hide Linked, Size;
    forall alg: uint16, data: seq<byte> | Implemented(alg)
      ensures |Linked(alg, data)| == Size(alg)
    {
      LinkedSize(alg, data, Size(alg));
    }
  }

  /** Below 2^29 bytes the digests are those of the standard; SHA-256 wraps its bit counter beyond. */
  lemma LinkedIsStandard(alg: uint16, data: seq<byte>)
    requires Implemented(alg) && |data| < 0x2000_0000
    ensures Linked(alg, data) == Standard(alg, data)
  {
    hide Sha1.Hash, Sha512.Hash384, Sha512.Hash512, Sha256.HashBlocks, Pad, BitCount;
    Sha256.CounterIsLength(data);
  }

  /** tpm2_hash_data: the digest, 0xff bytes for an algorithm without code, nothing for an unknown one. */
  method HashData(alg: uint16, data: seq<byte>, hash: array<byte>)
    requires |data| < 0x1_0000_0000 && hash.Length >= 64
    modifies hash
    ensures Supported(alg) ==>
              var d := BankDigest(Linked, alg, data);
              |d| == Size(alg) && hash[..] == Patch(old(hash[..]), 0, d)
    ensures !Supported(alg) ==> hash[..] == old(hash[..])
  {
    hide Patch, Sha1.Hash, Sha256.Hash, Sha256.HashWrapped, Sha512.Hash384, Sha512.Hash512;
    if Implemented(alg) { LinkedSize(alg, data, Size(alg)); }
    if alg == 0x0004 {
      Sha1.Sha1(data, hash);
    } else if alg == 0x000b {
      Sha256.Sha256(data, hash);
    } else if alg == 0x000c {
      Sha512.Sha384(data, hash);
    } else if alg == 0x000d {
      Sha512.Sha512(data, hash);
    } else if Supported(alg) {
      Store(hash, 0, Fill(0xff, Size(alg)));
    }
  }

  /** Attestation with the hash functions of the firmware: the log of a boot without overflow, decoded with its
      own first record and replayed with these functions, gives the PCR values of the TPM. */
  lemma FirmwareLogReplays(c: Config, b: Boot, ins: seq<Input>)
    requires c.hash == Linked && 7 <= |c.selection| <= 113 && ValidInputs(ins) && StartLog(c, b).1 == Ok
    ensures var (b1, codes) := RunFrom(c, StartLog(c, b).0, ins);
            LogOverflow !in codes ==>
              && b1.log.Some? && ReadLog(b1.log.value).Some?
              && b1.pcrs == Replay(Linked, b.pcrs, ReadLog(b1.log.value).value)
  {
    hide Linked, ReadLog, Replay;
    LinkedIsSized();
    ReplayReproducesPcrs(c, b, Banks(c.selection).value, ins);
  }
}
