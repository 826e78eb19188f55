# Verified models of SLOF algorithms

SLOF is firmware for POWER systems. Most of it drives hardware; these Dafny modules model the algorithms in it that
have real invariants, and prove them. The target is big-endian PPC64 with an unsigned `char`, so the conversions
between host, network and big-endian order are identities and are left out of the models.

Run `dafny verify dfyconfig.toml` to verify everything.

Where the code changes state in place, the model is a class or a method over arrays with the fields and the loops of
the code, and its contract ties the new state to a specification function; what the code is for is then proved of that
function. Protocols with more than one party are step relations, and the results about them hold in every run.

| area | modules |
|---|---|
| measured boot (lib/libtpm/tcgbios.c) | EventLog: log records and their parser; MeasuredBoot: TPM, log and runs; PcrSelection: which banks are measured; TcgBios: the code; FirmwareHashes: with SHA |
| TFTP (lib/libnet/tftp.c) | Tftp, TftpClient: the receiver; TftpNetwork: server, network and runs; TftpLosses: lost acknowledgements |
| bcm57xx (lib/libbcm/bcm57xx.c) | BcmTx, BcmRx: rings as state machines of driver and controller, and the driver under interference |
| IPv6 text (lib/libnet/ipv6.c) | Ipv6Text: printer and parser on values; CStrings, Ipv6: the code; Ipv6RoundTrip; Ipv6Forms: all text forms |
| NVRAM (lib/libnvram) | NvramLayout, NvramTable: the partition chain; NvramChecksum; NvramDelete, NvramRuns; Nvram: the code; EnvLayout, EnvVar: the environment store |
| DHCP options (lib/libnet/dhcp.c) | DhcpOptions, DhcpMerge: overload merge; DhcpMessage, Dhcp: encoder and decoder; DhcpOverload: both together |
| SHA (lib/libtpm/sha*.c) | ShaPadding, Words32, Words64, Sha1, Sha256, Sha512; Primes, ShaConstants: where the constants come from; ShaExamples |
| allocator (slof/allocator.c) | BlockRuns: sets of free blocks; BitWords: packed words; Allocator: the code |
| IPv4 (lib/libnet/ipv4.c) | ArpCache, ArpRing; Reassembly; Checksum |
| flash CRC (board-js2x) | Crc |
| DNS names (lib/libnet/dns.c) | DnsNames, Dns |

Shared: Bytes (bytes, byte order, copies) and Arith (products and remainders).

The hash functions are parameters of the measured-boot model, which FirmwareHashes instantiates. Network behaviour,
timeouts, the results of memory allocation, the TPM's verdict on a command and the steps of the network controller are
parameters or nondeterministic events.

What the code does not do as its documentation, or a reader, would expect, with the exact condition:

- tpm20_build_digest: its comment says that other banks get the truncated or padded hash of one algorithm. The code
  hashes with each bank's own algorithm, and fills the digests of algorithms it does not implement with 0xff; the model
  follows the code.
- get_blksize skips options with strchr(s, 0), which in this C library never finds the terminator, so the block size is
  understood exactly if it is the first option (Tftp.BlksizeMustComeFirst).
- A TFTP block that arrives 65534 blocks late can be taken for the next one, exactly under the condition of
  TftpNetwork.TakenForNext. If the first block is taken for block 65536, what is stored is then a prefix of the file
  exactly if these two blocks are equal (TftpNetwork.LateBlockSpoilsFile); the safety result asks for less delay, or
  for files of at most 65535 blocks.
- A TFTP block from before the wrap of the block number that arrives late, with a greater number than the block stored
  last, is not ignored but ends the transfer with -42 (TftpNetwork.BlockArrives).
- str_to_ipv6 does not take every compressed form: with nothing behind the "::", or with seven groups there, it stores
  zeros (Ipv6Forms.ParsesCompressedForm).
- str_to_ipv6 stores the bytes of a text that starts with "::" but returns 0 for it, except for "::1"
  (Ipv6RoundTrip.ParseUndoesPrint).
- The checksum of an NVRAM header is the one's complement sum of its other bytes, except that 8 bits lose the carry of
  the second addition: it is one less exactly if that addition carries (NvramChecksum.ChecksumIsOnesSum).
- delete_nvram_partition leaves the last 32 bytes of the NVRAM behind. It leaves the table without the partition
  exactly if the new free partition is at most 0xffff units long and these stale bytes vanish: they must be zero, or,
  if no free partition moves down and the deleted one has 32 bytes (in a full NVRAM, or when the free partition itself
  is deleted), end the walk and be zero behind the new header
  (NvramDelete.DeleteSteps, NvramRuns.StaleBytesMayVanish, NvramRuns.LastSmallStays). 48 free bytes are enough for the
  stale bytes, and less than 1 MB for the length (NvramRuns.UsualDeletion).
- On the js2x board, with 1 MB, deleting the two logs and "common" behind a reset makes the free space 0x10000 units;
  its header gets length 0, and no lookup finds anything any more (NvramRuns.OneMegabyte). After that, a lookup for
  type 0 does not return.
- nvram_set_env does not check the space for a longer value of an existing variable, and without room overwrites what
  lies behind the partition (EnvVar.Store.SetEnv).
- dhcp_decode_options always takes option 93 for two bytes long. A list merged from two lists that both have it is
  misread, and may not decode (DhcpOverload.ReadsMergedList, DhcpOverload.SecondArchIsMisread); with option 93 at most
  once in both, the merged list decodes without an end marker (DhcpOverload.MergeThenDecode).
- The environment store compares a name with the beginning of each string, so setting "a" changes "ab" if that is found
  first; and nvram_set_env looks for the equals sign from the end, so of an old value with equals signs the part up to
  the last one stays (EnvLayout.SetThenGet, EnvLayout.SetChangesNoOther, EnvLayout.SetsAnother).
- nvram_add_env accepts an entry that fits exactly, and the store then has no end mark (EnvVar.Store.AddEnv).
- sha256 counts bits in 32 bits: its padding is that of the standard exactly below 2^29 bytes (Sha256.CounterIsLength).
- A late ARP reply releases the packet of the newest entry, whoever replies (ArpCache.ReleasedPacket,
  ArpCache.PacketGoesAstray).
- dns_extract_name returns the position behind the last pointer of a chain (DnsNames.LastIsNextUnlessChained).

## Model

| member | source | states |
|---|---|---|
| EventLog.ReadLogUndoesPrint | lib/libtpm/tcgbios.c:676-754 | parsing a log with the digest sizes that its own first record announces gives back exactly the sequence of (pcr, type, digests, event data) that was appended, for any number of events |
| EventLog.SameDigestsInBothOrders | lib/libtpm/tcgbios.c:275-346 | the big-endian digest list sent to the TPM and the little-endian list in the log have the same length and carry the same digests |
| EventLog.ReadSpecId | lib/libtpm/tcgbios.c:676-754 | the Spec ID record is read back as the list of algorithm ids and digest sizes, in order, whatever follows it |
| EventLog.ReadEvent | lib/libtpm/tcgbios.c:638-672 | one appended record is read back exactly, and reading goes on behind it |
| EventLog.ReadDigests | lib/libtpm/tcgbios.c:275-346 | a little-endian digest list is read back with the announced sizes |
| EventLog.TpmReadsDigests | lib/libtpm/tcgbios.c:275-346 | a big-endian digest list is read back by the TPM, and has the length of the little-endian one |
| MeasuredBoot.MeasureAccounts | lib/libtpm/tcgbios.c:886-910 | one measurement adds its event to the logged and the extended history if it returns 0, to the extended history only if the log overflows, and to neither otherwise; log and PCRs stay the print and the replay of the histories |
| MeasuredBoot.RunAccounts | lib/libtpm/tcgbios.c:886-910 | the same over every run of measurements |
| MeasuredBoot.LoggedAmongExtended | lib/libtpm/tcgbios.c:886-910 | the logged events are a subsequence of the successful extends, and all of them if nothing overflowed |
| MeasuredBoot.ReplayReproducesPcrs | lib/libtpm/tcgbios.c:886-910 | attestation: after a successful tpm_set_log_parameters and any measurements, the log stays within log_area_size, parses to the events whose measurement returned 0, and unless it overflowed its replay over the initial PCRs gives the PCR values of the TPM in every active bank |
| PcrSelection.InUseIs | lib/libtpm/tcgbios.c:304-308 | one of the PCRs 0 to 7 is selected exactly if the bitmap has a first byte that is not 0 |
| PcrSelection.WalkReads | lib/libtpm/tcgbios.c:290-341 | the walk over the bytes of any list of entries gives the algorithms of the entries in use, in order, or fails if one of them is unknown |
| PcrSelection.BanksAre | lib/libtpm/tcgbios.c:290-341 | the banks of a selection are exactly the algorithms of its entries that select one of the PCRs 0 to 7, in order; none exactly if such an algorithm is unknown or the bytes are not made of entries, at most as many as the count says |
| PcrSelection.ExtendIs | lib/libtpm/tcgbios.c:455-487 | extending by a digest list changes the banks of this PCR and of the listed algorithms only |
| PcrSelection.MeasurementReaches | lib/libtpm/tcgbios.c:886-910 | by the selected PCRs: which measurements fail; and one that returns 0 or overflows the log leaves in every selected bank of its PCR the hash of the old value followed by the digest of the data, and all other banks alone |
| PcrSelection.MeasurementIsLogged | lib/libtpm/tcgbios.c:638-672 | the record of an accepted measurement: PCR, event type and information of the caller and one digest for each bank in use, in order, 16 bytes and these long; it is logged exactly if there is a log with room for it |
| PcrSelection.PcrsAreChains | lib/libtpm/tcgbios.c:886-910 | after any run every selected bank holds the hash chain over exactly the data that the TPM accepted for its PCR, in order |
| TcgBios.TpmReadsCommand | lib/libtpm/tcgbios.c:455-487 | the extend command names the PCR and the digests it was built from |
| TcgBios.BanksReachTpm | lib/libtpm/tcgbios.c:455-487 | for every PCR selection the digest list of all active banks fits the command and reaches the TPM unchanged |
| TcgBios.Firmware.constructor | lib/libtpm/tcgbios.c:850-863 | a firmware without a log |
| TcgBios.Firmware.PutBank | lib/libtpm/tcgbios.c:313-331 | one bank of the digest list: algorithm id and digest with the bank's own hash function, or 0xff bytes for algorithms that are not implemented |
| TcgBios.Firmware.WriteDigests | lib/libtpm/tcgbios.c:275-346 | the walk over the PCR selection writes the digests of exactly the banks of PcrSelection.BanksAre, in order, or fails on a malformed selection or an unknown algorithm |
| TcgBios.Firmware.BuildDigest | lib/libtpm/tcgbios.c:275-346 | the digest list in either byte order, its length, and -1 exactly for the unusable selections |
| TcgBios.Firmware.WriteSizes | lib/libtpm/tcgbios.c:699-744 | the walk that announces the digest sizes visits the same banks of PcrSelection.BanksAre |
| TcgBios.Firmware.FillSpecId | lib/libtpm/tcgbios.c:676-754 | the Spec ID event for the active banks |
| TcgBios.Firmware.WriteSpecId | lib/libtpm/tcgbios.c:676-754 | the first record of the log, or an error for a malformed selection |
| TcgBios.Firmware.SetLogParameters | lib/libtpm/tcgbios.c:850-863 | a new log with its first record; a failure marks the TPM as not working |
| TcgBios.Firmware.ExtendPcr | lib/libtpm/tcgbios.c:455-487 | the TPM ends up extended by the digests in the entry, or unchanged |
| TcgBios.Firmware.LogEventLong | lib/libtpm/tcgbios.c:638-672 | the record is appended completely, or nothing is if it would pass the end of the area |
| TcgBios.Firmware.AddMeasurement | lib/libtpm/tcgbios.c:886-910 | extend first, then append the same digests; every return code with its effect on PCRs, log and working flag |
| FirmwareHashes.LinkedIsSized | lib/libtpm/tcgbios.c:125-177 | the hash functions that are linked in have the digest sizes of the table, so that all results about measured boot hold for them |
| FirmwareHashes.LinkedIsStandard | lib/libtpm/tcgbios.c:125-177 | below 2^29 bytes they are those of FIPS 180-4 |
| FirmwareHashes.HashData | lib/libtpm/tcgbios.c:240-260 | tpm2_hash_data: the digest, 0xff bytes for an algorithm without code, nothing for an unknown one |
| FirmwareHashes.FirmwareLogReplays | lib/libtpm/tcgbios.c:886-910 | attestation with these functions: the decoded log of a boot without overflow replays to the PCR values of the TPM |
| Tftp.DigitsOfDecimal | lib/libnet/tftp.c:293-319 | the decimal text of a block size is read as that number |
| Tftp.BlksizeMustComeFirst | lib/libnet/tftp.c:293-319 | the server's block size is understood exactly when blksize is the first acknowledged option; behind any other option it reads as 0 |
| TftpClient.Receiver.constructor | lib/libnet/tftp.c:503-533 | the static state at the start of a transfer |
| TftpClient.Receiver.StoreBlock | lib/libnet/tftp.c:436-459 | the payload is appended, acknowledged and the end recognised, or the block is rejected if the buffer is too small |
| TftpClient.Receiver.HandleTftp | lib/libnet/tftp.c:336-477 | one packet: every opcode, port, duplicate and late block, with the new state and the acknowledgements sent (TftpNetwork.BlockArrives says which) |
| TftpClient.Receiver.HandleUnreachable | lib/libnet/tftp.c:485-489 | the error that ends the transfer |
| TftpClient.Receiver.OneTurn | lib/libnet/tftp.c:540-575 | one turn of the main loop: timeout, delivery, lost and bad packet limits |
| TftpClient.Receiver.MainLoop | lib/libnet/tftp.c:535-589 | the whole loop, its acknowledgements and its result |
| TftpNetwork.WireIsInjective | lib/libnet/tftp.c:399-405 | block numbers of blocks less than 65535 apart differ, with either way of wrapping |
| TftpNetwork.OnlyNextIsExpected | lib/libnet/tftp.c:399-435 | with k blocks stored the client takes an arriving block for the next one exactly if it is block k + 1 |
| TftpNetwork.TakenForNext | lib/libnet/tftp.c:397-405 | the exact condition on (k, n): with k blocks stored, block n is taken for the next one exactly if it is whole periods of the block numbers older than block k + 1, or, behind number 0xffff of a server that goes on with 0, than block k + 2 |
| TftpNetwork.LateBlockSpoilsFile | lib/libnet/tftp.c:397-452 | the delay bound is needed and exact: in every file of more than 65535 blocks a run in which the first block arrives again 65534 blocks late stores it as block 65536, and what the client then holds is a prefix of the file exactly if the two blocks are equal |
| TftpNetwork.BlockArrives | lib/libnet/tftp.c:397-459 | what the arrival of any sent block does to a client with k blocks stored, and exactly which acknowledgement it sends: block k + 1 is stored and acknowledged if it fits, and ends the transfer with -2 otherwise; block k is acknowledged again; an older one is counted, or ends the transfer with -42 if its number is the greater one, and is not acknowledged |
| TftpNetwork.HelloArrives | lib/libnet/tftp.c:349-367 | an answer to the read request is acknowledged with 0, or refused exactly if its block size is too large |
| TftpNetwork.NextKeepsInv | lib/libnet/tftp.c:336-477 | every step of client, server and network keeps the protocol invariant |
| TftpNetwork.RunKeepsInv | lib/libnet/tftp.c:535-575 | so does every run |
| TftpNetwork.TransferIsSafe | lib/libnet/tftp.c:503-589 | over every run: the stored bytes are a prefix of the file and fit the buffer, every acknowledgement ever sent names a block that is stored with all before it, and a result that is not an error means that exactly the whole file is there |
| TftpNetwork.LosslessRunsComplete | lib/libnet/tftp.c:503-589 | every run of a network that loses nothing, so that each packet arrives once and before a timeout, brings the whole file, whatever the retry limit: nothing goes wrong in it, it is complete exactly when all packets have arrived, and until then the next one can arrive |
| TftpNetwork.LosslessTransferCompletes | lib/libnet/tftp.c:503-589 | there is a run in which the whole file arrives |
| TftpLosses.StepFlies | lib/libnet/tftp.c:336-477 | acknowledgements that arrive at most once, or get lost: every move keeps the protocol invariant |
| TftpLosses.TurnGoes | lib/libnet/tftp.c:535-575 | within the retry limits a turn stores the block that was not stored yet, counts a repeated one, and gives no error |
| TftpLosses.TurnAcknowledges | lib/libnet/tftp.c:540-560 | the acknowledgements of such a turn, exactly: the number of the block or answer that arrives, also when it is repeated; and at a timeout behind five others the last number once more, if it is greater than 1 |
| TftpLosses.LossyRunsAreSafe | lib/libnet/tftp.c:503-589 | in every run with losses within the limits: no error, a prefix of the file, and the whole file when the client stops |
| TftpLosses.LossesAreMadeUpFor | lib/libnet/tftp.c:397-575 | from every state of such a run, even if everything in the network gets lost, and the acknowledgement of each further block then as often as given, within the limit: a server that sends its block again gets a new acknowledgement, and the whole file arrives |
| TftpLosses.FileArrives | lib/libnet/tftp.c:397-575 | so it does from the start, for every number of losses of each acknowledgement up to the retry limit |
| TftpLosses.LimitsAreExact | lib/libnet/tftp.c:562-575 | one more repetition of the block stored last gives -40, one more timeout -41 |
| BcmTx.RecycleKeepsInv | lib/libbcm/bcm57xx.c:2092-2097 | recycling a sent descriptor into the stop slot keeps the ring invariant |
| BcmTx.FillKeepsInv | lib/libbcm/bcm57xx.c:2109-2126 | filling a descriptor keeps it |
| BcmTx.PublishKeepsInv | lib/libbcm/bcm57xx.c:2128-2139 | publishing the producer index keeps it |
| BcmTx.NicKeepsInv | lib/libbcm/bcm57xx.c:2054-2166 | a transmission by the controller keeps it |
| BcmTx.StepKeepsInv | lib/libbcm/bcm57xx.c:2054-2166 | every step of either side keeps it |
| BcmTx.WindowHoldsBufferOnce | lib/libbcm/bcm57xx.c:1413-1493 | the cyclic window [tx_start, tx_stop) holds each of the 16 buffers exactly once |
| BcmTx.FillIsSafe | lib/libbcm/bcm57xx.c:2109-2126 | a frame is only copied into a buffer that the controller has done with |
| BcmTx.Distances | lib/libbcm/bcm57xx.c:2054-2166 | the window spans 16 descriptors and bufavail is the distance from the producer index to tx_stop |
| BcmTx.NobodyIsStuck | lib/libbcm/bcm57xx.c:2054-2166 | the descriptor the driver fills, and the one the controller sends, has a buffer |
| BcmTx.RingIsConserved | lib/libbcm/bcm57xx.c:2054-2166 | all of that in every interleaving of calls and controller steps, and frames leave unchanged in submission order |
| BcmTx.Driver.constructor | lib/libbcm/bcm57xx.c:1413-1493 | the initial ring |
| BcmTx.Driver.NicRuns | lib/libbcm/bcm57xx.c:2054-2166 | interference of the controller at any point |
| BcmTx.Driver.RecycleOne | lib/libbcm/bcm57xx.c:2092-2097 | one turn of the recycling loop |
| BcmTx.Driver.Recycle | lib/libbcm/bcm57xx.c:2092-2097 | all descriptors consumed on entry are recycled |
| BcmTx.Driver.SetUp | lib/libbcm/bcm57xx.c:2109-2126 | the descriptor and its buffer hold the frame |
| BcmTx.Driver.PublishFrame | lib/libbcm/bcm57xx.c:2128-2139 | the frame is queued behind all earlier ones |
| BcmTx.Driver.Xmit | lib/libbcm/bcm57xx.c:2054-2166 | a frame is refused exactly if 16 were waiting on entry; otherwise it is queued, whatever the controller does meanwhile |
| BcmRx.StepKeepsInv | lib/libbcm/bcm57xx.c:1914-2051 | every step of driver or controller keeps the invariant of the two receive rings |
| BcmRx.OnePlace | lib/libbcm/bcm57xx.c:1914-2051 | a buffer is in one place only |
| BcmRx.FewWaiting | lib/libbcm/bcm57xx.c:1914-2051 | at most 64 descriptors are waiting, so neither ring overflows |
| BcmRx.RingIsEmpty | lib/libbcm/bcm57xx.c:1933-1938 | equal indices mean an empty return ring |
| BcmRx.NobodyIsStuck | lib/libbcm/bcm57xx.c:1970-2003 | the driver never meets a null buffer address, the controller always finds a buffer, every supplied descriptor announces its own slot and a full buffer, and every buffer the controller holds takes every frame up to that length |
| BcmRx.FetchedBuffer | lib/libbcm/bcm57xx.c:2869-2869 | the controller fetches the oldest supplied buffer, which it does not hold yet |
| BcmRx.BuffersAreConserved | lib/libbcm/bcm57xx.c:1914-2051 | in every interleaving each of the 64 buffers is in exactly one of producer ring, controller, return ring and driver's hand, discarded frames included; supplied descriptors announce their slot and 1536 bytes, so the controller can receive into every buffer it holds; and the n-th call hands up the n-th reception without its checksum, or nothing if it was erroneous or too long |
| BcmRx.Driver.constructor | lib/libbcm/bcm57xx.c:1281-1411 | the initial rings for both return ring sizes |
| BcmRx.Driver.NicFetches | lib/libbcm/bcm57xx.c:2869-2869 | the controller takes a supplied buffer, with the length its descriptor announces |
| BcmRx.Driver.NicReceives | lib/libbcm/bcm57xx.c:1914-2051 | the controller stores a frame of at most the announced length in a buffer it holds |
| BcmRx.Driver.NicRuns | lib/libbcm/bcm57xx.c:1914-2051 | interference of the controller at any point |
| BcmRx.Driver.CopyOut | lib/libbcm/bcm57xx.c:1940-1993 | the copy to the caller, or the decision to discard |
| BcmRx.Driver.PutBack | lib/libbcm/bcm57xx.c:1995-2008 | the descriptor goes back to the producer ring, with its slot there and the length of a full buffer (kept by BcmRx.StepKeepsInv) |
| BcmRx.Driver.WriteConsumer | lib/libbcm/bcm57xx.c:2010-2023 | the return ring index is published |
| BcmRx.Driver.WriteProducer | lib/libbcm/bcm57xx.c:2024-2024 | the producer ring index is published |
| BcmRx.Driver.Receive | lib/libbcm/bcm57xx.c:1914-2051 | nothing is reported exactly if the return ring was empty on entry; otherwise the oldest reception, or nothing of it if it was bad or too long |
| BcmRx.Driver.Complete | lib/libbcm/bcm57xx.c:1940-2050 | the part of a call behind the empty check |
| Ipv6Text.TextShape | lib/libnet/ipv6.c:724-735 | the text of a group: one to four hex digits without superfluous zeros, read back as its value |
| Ipv6.FindsHit | lib/libnet/ipv6.c:736-748 | where the search for the zero pair stops, also in the middle of a group |
| Ipv6.SearchFrom | lib/libnet/ipv6.c:736-748 | one search from a group boundary, and how its hit is told from a hit inside a group |
| Ipv6.HitLeadsToPair | lib/libnet/ipv6.c:736-748 | repeated searches find the first pair of zero groups, or that there is none |
| CStrings.StrCpyDown | lib/libc/string/strcpy.c:15-25 | copying a string down within one buffer, overlap included |
| CStrings.StrCatDown | lib/libc/string/strcat.c:15-24 | appending a later part of the same buffer |
| CStrings.PrintOnto | lib/libnet/ipv6.c:727-731 | printing a string onto itself and more behind it |
| Ipv6.PrintGroups | lib/libnet/ipv6.c:723-735 | the uncompressed text in the buffer |
| Ipv6.FindPair | lib/libnet/ipv6.c:736-748 | the search loop |
| Ipv6.SkipZeros | lib/libnet/ipv6.c:756-762 | the loop that skips the zero groups |
| Ipv6.Cut | lib/libnet/ipv6.c:749-756 | the text is cut in front of the zero groups, in place, and what follows them is still there |
| Ipv6.Ipv6ToStr | lib/libnet/ipv6.c:717-767 | the compressed text of every address, rewritten in place in the one buffer |
| Ipv6.CountColons | lib/libnet/ipv6.c:576-606 | the number of colons and double colons, or -1 for an inadmissible text |
| Ipv6.NextBlock | lib/libnet/ipv6.c:617-637 | the next group of a text |
| Ipv6.StrToBytes | lib/libnet/ipv6.c:608-651 | the bytes of a list of groups, or the error |
| Ipv6.StrToHalves | lib/libnet/ipv6.c:665-711 | both sides of a double colon |
| Ipv6.StrToIpv6 | lib/libnet/ipv6.c:653-715 | buffer contents and return value for every text |
| Ipv6RoundTrip.JoinShape | lib/libnet/ipv6.c:723-735 | eight groups have seven single colons |
| Ipv6RoundTrip.ReadsGroups | lib/libnet/ipv6.c:608-651 | groups separated by single colons read back as their bytes |
| Ipv6RoundTrip.FindsDouble | lib/libnet/ipv6.c:665-668 | the double colon that is found is the printed one |
| Ipv6RoundTrip.ReadsHalves | lib/libnet/ipv6.c:665-711 | what is left in the result buffer for a compressed text |
| Ipv6RoundTrip.ParseUndoesPrint | lib/libnet/ipv6.c:653-767 | for every address str_to_ipv6 on the output of ipv6_to_str leaves exactly the address in the buffer, and returns 0 exactly for a text that starts with "::" and is not "::1" (section 2.2 of RFC 4291) |
| Ipv6.PrintAndParse | lib/libnet/ipv6.c:653-767 | the same for the two functions run one after the other |
| Ipv6Forms.PrintIs | lib/libnet/ipv6.c:736-767 | the printed text is all groups if no two zero groups in a row stand in front of the last one; otherwise "::" stands for the first such stretch up to its end or the last group, and for everything if all is zero |
| Ipv6Forms.TextIsLower | lib/libnet/ipv6.c:724-735 | digits are printed in lower case |
| Ipv6Forms.CheckColonsIs | lib/libnet/ipv6.c:576-606 | accepted are texts with seven colons and no "::", or with at most seven and one "::" |
| Ipv6Forms.ReadsTexts | lib/libnet/ipv6.c:608-651 | any groups of one to four hex digits of either case, separated by colons, read as their values |
| Ipv6Forms.ParsesFullForm | lib/libnet/ipv6.c:653-715 | every spelling of eight groups is parsed as the address (section 2.2 of RFC 4291) |
| Ipv6Forms.ParsesCompressedForm | lib/libnet/ipv6.c:653-715 | for every compressed form the address is stored exactly if one to six groups stand behind the "::" (or it is the zero address), and the return value is nonzero exactly with groups on both sides and for "::1" |
| NvramLayout.ReadHeader | lib/libnvram/nvram.c:256-270 | type, checksum, length and name are read back from a written header |
| NvramLayout.UsedSpaceOfChain | lib/libnvram/nvram.c:272-300 | the walk over the headers ends exactly behind the last partition |
| NvramLayout.LookupInChain | lib/libnvram/nvram.c:319-359 | a lookup, also for type 0, finds the first matching partition of the chain and otherwise goes on behind it |
| NvramLayout.OnlyTypeZeroHangs | lib/libnvram/nvram.c:335-351 | get_partition returns for every type other than 0, whatever the memory holds |
| NvramLayout.FoundByName | lib/libnvram/nvram.c:341-350 | a partition created under a name is found under this name, compared up to 12 bytes, and under no other name or type |
| NvramChecksum.OnesSumIs | lib/libnvram/nvram.c:256-270 | the end-around sum of bytes is the sum modulo 255, with 0 for zeros only |
| NvramChecksum.ChecksumIsOnesSum | lib/libnvram/nvram.c:256-270 | the header checksum is the one's complement sum of the other 15 bytes, or one less exactly if adding the carry of the fold itself carries |
| NvramChecksum.ChangeIsSeen | lib/libnvram/nvram.c:256-270 | changing one byte of a header whose other bytes are not all zero goes unseen exactly between 0 and 0xff, and, where the change decides whether a carry is lost, at most between values that differ by one modulo 255 |
| NvramChecksum.CommonChecksum | lib/libnvram/nvram.c:256-270 | the header of "common" that reset_nvram writes has checksum 0xfc |
| NvramLayout.WritesHeader | lib/libnvram/nvram.c:438-444 | where the bytes behind the name are zero the header writes produce a checksummed header with a padded name |
| NvramTable.CreatedInChain | lib/libnvram/nvram.c:419-452 | creation appends the partition to the chain if its padded length fits, and changes nothing otherwise |
| NvramTable.FreeInChain | lib/libnvram/nvram.c:454-463 | the rest of the memory becomes one free partition, also when there is no rest |
| NvramTable.NewSteps | lib/libnvram/nvram.c:465-488 | the memory steps of new_nvram_partition implement the operation on the table |
| NvramTable.NewIsValid | lib/libnvram/nvram.c:465-488 | the new table still fills the memory exactly |
| NvramTable.ImageTiles | lib/libnvram/nvram.c:272-300 | the checksummed headers of an image tile the memory exactly |
| NvramTable.LookupInImage | lib/libnvram/nvram.c:319-359 | in the image of a table every lookup returns, with the first matching partition |
| NvramTable.LookupFindsUnpartitioned | lib/libnvram/nvram.c:302-359 | looking for type 0 finds the unpartitioned space behind the partitions, as its comment promises, with a length that wraps |
| NvramTable.LookupFree | lib/libnvram/nvram.c:474-474 | the free partition is found exactly if there is one |
| NvramTable.FreeTooLong | lib/libnvram/nvram.c:439-459 | more than 0xffff free units do not fit a header: its length is cut to 16 bits and the headers do not tile the memory |
| NvramDelete.MovedImage | lib/libnvram/nvram.c:518-522 | what moving the later partitions down leaves in memory, stale bytes included |
| NvramDelete.LookupMovedFree | lib/libnvram/nvram.c:524-524 | the free partition is found where it was moved to |
| NvramDelete.WipesMovedFree | lib/libnvram/nvram.c:524-525 | the wipe of the moved free partition leaves zeros up to the stale bytes |
| NvramDelete.FreeOverTail | lib/libnvram/nvram.c:526-526 | behind at least 16 zero bytes the new free partition is zero-filled exactly if the last 32 bytes of the memory were zero |
| NvramDelete.OnlyStale | lib/libnvram/nvram.c:524-526 | with nothing but the 32 stale bytes behind the remaining partitions (a full NVRAM and a deleted partition of 32 bytes): the result is the image without it exactly if what the lookup and the wipe leave of these bytes ends the walk of calc_used_nvram_space and is zero behind the 14 bytes that the new header covers |
| NvramDelete.DeleteSteps | lib/libnvram/nvram.c:510-529 | for every partition of every valid table, the free one included: delete_nvram_partition leaves the image of the table without it exactly if 16 bits hold the length of the new free partition and the stale bytes vanish; with a greater length the headers do not tile the memory any more |
| NvramDelete.LargeFreeVanishes | lib/libnvram/nvram.c:510-529 | a free partition of at least 48 bytes is enough for the stale bytes to vanish |
| NvramTable.WriteIntoChain | lib/libnvram/nvram.c:606-615 | a write at any offset in the contents of one partition leaves the others as they are |
| NvramTable.WriteIntoImage | lib/libnvram/nvram.c:606-615 | a write into a partition of a table leaves the image of the table with the new contents |
| NvramRuns.DeletionNeedsIt | lib/libnvram/nvram.c:510-529 | the condition under which a run may delete is exact |
| NvramRuns.UsualDeletion | lib/libnvram/nvram.c:510-529 | with 48 bytes free it is met in every NVRAM of less than 1 MB, and in a larger one whenever the new length fits 16 bits |
| NvramRuns.ApplyIsValid | lib/libnvram/nvram.c:465-647 | every operation keeps checksummed headers that tile the memory, with at most one free partition, last and zero |
| NvramRuns.RunKeepsTable | lib/libnvram/nvram.c:465-647 | so does every run of resets, creations, deletions and writes into partitions, for every size of the memory |
| NvramRuns.RunKeepsOthers | lib/libnvram/nvram.c:465-529 | a partition keeps its contents in every run that does not reset the NVRAM and at each step deletes, or writes into, another one |
| NvramRuns.FreeSpaceIsLost | lib/libnvram/nvram.c:439-459 | if the new free partition would have 0x10000 units, its header gets length 0: later lookups find the remaining partitions only, and a lookup for type 0 does not return |
| NvramRuns.OneMegabyte | lib/libnvram/nvram.c:510-529 | the 1 MB of the js2x board are enough for that: after a reset, deleting both logs and then "common" loses the free partition |
| NvramRuns.StaleBytesMayVanish | lib/libnvram/nvram.c:518-526 | a table for which the stale bytes vanish although they are not zero |
| NvramRuns.LastSmallStays | lib/libnvram/nvram.c:518-526 | in a full NVRAM the last partition, if it has 16 bytes of contents, is not deleted although the call reports success |
| Nvram.Memory.CalcChecksum | lib/libnvram/nvram.c:256-270 | the folded 16-bit sum of a header |
| Nvram.Memory.CalcUsed | lib/libnvram/nvram.c:272-300 | the used space |
| Nvram.Memory.GetPartition | lib/libnvram/nvram.c:319-359 | the first matching partition, or (0, -1), for every type, wherever the code returns |
| Nvram.Memory.Erase | lib/libnvram/nvram.c:372-389 | zeros in the given range, nothing else |
| Nvram.Memory.Wipe | lib/libnvram/nvram.c:402-416 | the header, or the whole partition, erased |
| Nvram.Memory.PutHeader | lib/libnvram/nvram.c:438-444 | the header writes in their order |
| Nvram.Memory.Create | lib/libnvram/nvram.c:419-452 | memory and handle after a creation, with the 32-bit arithmetic of the length check |
| Nvram.Memory.CreateFree | lib/libnvram/nvram.c:454-463 | memory and result after the creation of the free partition |
| Nvram.Memory.NewPartition | lib/libnvram/nvram.c:465-488 | a new partition with zero contents at the place of the free one, or an unchanged table and (0, 0) |
| Nvram.Memory.Find | lib/libnvram/nvram.c:319-359 | the handle of the first matching partition of a table, the free one included |
| Nvram.Memory.MoveDown | lib/libnvram/nvram.c:518-522 | the moving loop and the erasure behind it |
| Nvram.Memory.DeletePartition | lib/libnvram/nvram.c:510-529 | a partition without contents is not deleted; otherwise the result is the image of the table without it exactly under the condition of NvramDelete.DeleteSteps, and the headers stop tiling the memory if the new length does not fit |
| Nvram.Memory.InitLog | lib/libnvram/nvram.c:606-615 | the log header |
| Nvram.Memory.Reset | lib/libnvram/nvram.c:617-647 | the two log partitions, the common one and the free one tile the memory, unless 16 bits do not hold the length of the rest; then they do not |
| Nvram.Memory.Do | lib/libnvram/nvram.c:465-647 | one operation of a run leaves the image of the table it should |
| Nvram.Memory.Run | lib/libnvram/nvram.c:465-647 | every run of resets, creations, deletions and writes leaves the image of the table it should |
| EnvLayout.SetThenGet | lib/libnvram/envvar.c:170-241 | the law of the store with its exact condition: behind a set a variable reads as the set value exactly if it was new, had this value, or had one without equals sign; otherwise the old value stays up to its last one |
| EnvLayout.GetBehindSet | lib/libnvram/envvar.c:49-241 | what reading any name gives behind a set |
| EnvLayout.SetChangesNoOther | lib/libnvram/envvar.c:170-241 | no variable of another name changes exactly if the entry that the name finds is its own, or has the value already |
| EnvLayout.SetsAnother | lib/libnvram/envvar.c:170-241 | a store in which setting one variable changes another one, and one in which it changes the end of the value only |
| EnvLayout.NamesStayApart | lib/libnvram/envvar.c:170-241 | names of which none is a prefix of another one find their own entries, and stay so |
| EnvLayout.MatchesText | lib/libnvram/envvar.c:30-38 | comparing a name with a buffer that may hold stale bytes finds exactly the entries whose name starts with it |
| EnvLayout.EncodesNoEmptyString | lib/libnvram/envvar.c:83-101 | the first two adjacent zeros are behind the last entry |
| EnvLayout.AppendsEntry | lib/libnvram/envvar.c:121-129 | writing an entry behind the others gives a terminated list, except that an exact fit loses the end mark |
| EnvLayout.ReplacesValue | lib/libnvram/envvar.c:212-238 | writing the new value behind the last equals sign, the later entries and zeros gives the list with the changed value, for shorter and longer values |
| EnvVar.Store.GetEnv | lib/libnvram/envvar.c:49-81 | the value of the first variable that the name finds, or nothing |
| EnvVar.Store.PastEnvPos | lib/libnvram/envvar.c:20-41 | the position behind the entry that the name finds |
| EnvVar.Store.FindLast | lib/libnvram/envvar.c:83-101 | the position behind the last entry |
| EnvVar.Store.AddEnv | lib/libnvram/envvar.c:103-132 | success exactly if the entry and one more byte fit; nothing outside the partition changes |
| EnvVar.GrowsBeyond | lib/libnvram/envvar.c:212-226 | without room the new value and the later entries are written beyond the partition |
| EnvVar.Store.Rewrite | lib/libnvram/envvar.c:195-238 | the value is overwritten in place behind its last equals sign and the later entries move, beyond the partition if there is no room |
| EnvVar.Store.SetEnv | lib/libnvram/envvar.c:170-241 | with room the store holds the list with the variable set and nothing outside changes; a new variable without room is refused; on error nothing changes; a longer value without room is written over what lies behind the partition |
| EnvVar.Store.SetVariable | lib/libnvram/envvar.c:170-241 | in a partition of a table, setting a variable with room is a write into that partition as the runs have it, and the partition holds the list with the variable set; on error the image is unchanged |
| DhcpOptions.MergeConcatenates | lib/libnet/dhcp.c:517-552 | for every option that occurs at most once in the destination the merged value is the destination value followed by all source values in order, and distinct codes stay distinct (section 7 of RFC 3396) |
| DhcpOptions.MergedValue | lib/libnet/dhcp.c:526-547 | without that condition: the source values come behind the first occurrence |
| DhcpOptions.MergeIsProper | lib/libnet/dhcp.c:630-630 | no length byte overflows if no merged value exceeds 255 bytes |
| DhcpOptions.AddItemValue | lib/libnet/dhcp.c:534-544 | combining or appending one option changes that option only |
| DhcpOptions.WalkUndoesEncode | lib/libnet/dhcp.c:526-551 | walking over an encoded list gives back its items |
| DhcpMerge.FindOption | lib/libnet/dhcp.c:566-587 | the offset of the first occurrence, or of the end marker, or FALSE |
| DhcpMerge.AppendOption | lib/libnet/dhcp.c:596-601 | the option is copied behind the list |
| DhcpMerge.CombineOption | lib/libnet/dhcp.c:614-634 | the new contents come behind the old ones, and what follows moves up |
| DhcpMerge.MergeOne | lib/libnet/dhcp.c:534-545 | one source option in the destination buffer |
| DhcpMerge.ShortListsFit | lib/libnet/dhcp.c:617-625 | a merged list of at most 1024 bytes moves no tail that is too long for the temporary buffer |
| DhcpMerge.MergeOptions | lib/libnet/dhcp.c:517-552 | the buffer holds exactly the merged list without an end marker; FALSE exactly if the last source option is cut off |
| DhcpMessage.ReadsTheItems | lib/libnet/dhcp.c:408-499 | the decoder reads the options of a list in which option 93 has two bytes |
| DhcpMessage.DecodesItems | lib/libnet/dhcp.c:395-504 | decoding computes the meaning of the options the decoder reads; an end marker is not needed, a cut-off option is an error |
| DhcpMessage.DecodesWithoutEnd | lib/libnet/dhcp.c:500-501 | a list that fills its field exactly, and whose options have the contents their codes call for, decodes to its meaning without an end marker |
| DhcpOverload.SaneMerge | lib/libnet/dhcp.c:614-634 | merging lists of such options gives such a list exactly if option 93 occurs at most once in both together |
| DhcpOverload.ReadsMergedList | lib/libnet/dhcp.c:408-504 | the decoder reads a merged list as the list it is exactly if option 93 occurs at most once in both lists |
| DhcpOverload.ReadsOnInsideArch | lib/libnet/dhcp.c:464-467 | otherwise: it takes the merged contents of option 93 behind the first two bytes for options |
| DhcpOverload.SecondArchIsMisread | lib/libnet/dhcp.c:464-503 | two well-formed lists with distinct options whose merge does not decode |
| DhcpOverload.ReceivesDistinct | lib/libnet/dhcp.c:408-504 | a list of distinct options decodes to the fields with their contents, or not at all if the message type is none |
| DhcpOverload.MergedOptions | lib/libnet/dhcp.c:517-552 | which options a merged list has, and with what contents |
| DhcpOverload.MergeThenDecode | lib/libnet/dhcp.c:395-552 | decoding a merged list without an end marker gives for every option the destination value followed by all source values (section 7 of RFC 3396), and fails exactly if these are no message type |
| DhcpOverload.DecodeOverloaded | lib/libnet/dhcp.c:826-874 | the overload part of handle_dhcp: decoding, merging "file", "sname" or both into a copy, and decoding that (section 4.1 of RFC 2131), with every error return |
| DhcpMessage.ReceivesOne | lib/libnet/dhcp.c:292-380 | each encoded option is decoded as the field it came from |
| DhcpMessage.DecodeUndoesEncode | lib/libnet/dhcp.c:292-504 | decoding an encoding gives back message type, overload, requested address, server id, TFTP name, boot file and client architecture, and flags for exactly what was sent |
| DhcpMessage.MessageIs | lib/libnet/dhcp.c:292-380 | the encoding byte by byte: magic cookie, then code, length and contents of each option that is sent, in order, and the end marker (RFC 2132) |
| DhcpMessage.RequestListIs | lib/libnet/dhcp.c:338-351 | the request list holds exactly the codes of the requested options, in ascending order |
| Dhcp.Options.Clear | lib/libnet/dhcp.c:400-400 | an empty structure |
| Dhcp.Options.SetField | lib/libnet/dhcp.c:410-497 | the field that an option sets |
| Dhcp.Options.DecodeOptions | lib/libnet/dhcp.c:395-504 | the decoder on any bytes, with its error returns |
| Dhcp.Options.WriteOption | lib/libnet/dhcp.c:301-373 | code, length and contents of one option |
| Dhcp.Options.CountRequested | lib/libnet/dhcp.c:338-340 | the number of requested options |
| Dhcp.Options.WriteCodes | lib/libnet/dhcp.c:346-350 | their codes in ascending order |
| Dhcp.Options.WriteRequestList | lib/libnet/dhcp.c:338-351 | the request list, or nothing if it is empty |
| Dhcp.Options.EncodeOptions | lib/libnet/dhcp.c:292-380 | the encoding of the structure for the five message types of a client, FALSE for others |
| ShaPadding.PadEndsInLastBlocks | lib/libtpm/sha256.c:170-192 | the one or two blocks built behind the full ones are exactly the end of the padded message of FIPS 180-4, section 5.1 |
| Words32.ChWithOr | lib/libtpm/sha256.c:36-39 | Ch with inclusive or is the Ch of the standard |
| Words32.MajWithOr | lib/libtpm/sha256.c:41-44 | Maj with inclusive or is the Maj of the standard |
| Words32.RotatesRight | lib/libtpm/sha256.c:26-34 | the rotate instruction is ROTR for the amounts used |
| Words32.RotatesLeft | lib/libtpm/sha.c:26-34 | the rotate instruction is ROTL for the amounts used |
| Words64.ChWithXor | lib/libtpm/sha512.c:36-39 | complement by exclusive or gives the Ch of the standard |
| Words64.RotatesRight | lib/libtpm/sha512.c:26-34 | the 64-bit rotate instruction is ROTR for the amounts used |
| Sha256.SigmasAre | lib/libtpm/sha256.c:46-64 | the four sigma functions are those of section 4.1.2 |
| Words32.ChAndMaj | lib/libtpm/sha256.c:36-44 | Ch and Maj of the firmware are those of section 4.1.2 |
| Sha256.OneRound | lib/libtpm/sha256.c:128-139 | one turn of the round loop is one round of section 6.2.2 |
| Sha256.Schedule | lib/libtpm/sha256.c:103-108 | the message schedule |
| Sha256.Block | lib/libtpm/sha256.c:66-153 | the block function is the compression function of section 6.2.2 |
| Sha256.Stream | lib/libtpm/sha256.c:155-192 | the streaming loop, padding and bit counter give the fold of the compression function over the padded message |
| Sha256.Finish | lib/libtpm/sha256.c:174-192 | the last block, or the last two |
| Sha256.CounterIsLength | lib/libtpm/sha256.c:159-172 | the wrapping 32-bit bit counter gives the padding of the standard exactly below 2^29 bytes |
| Sha256.Sha256 | lib/libtpm/sha256.c:199-220 | below 2^29 bytes the digest is SHA-256; above, it is the hash of the message padded with the wrapped counter |
| Sha1.Step | lib/libtpm/sha.c:85-113 | function and constant of each kind of round |
| Sha1.Schedule | lib/libtpm/sha.c:59-66 | the message schedule |
| Sha1.Block | lib/libtpm/sha.c:36-141 | the block function is the compression function of section 6.1.2 |
| Sha1.Stream | lib/libtpm/sha.c:143-181 | the streaming loop and padding give the fold of the compression function over the padded message |
| Sha1.Finish | lib/libtpm/sha.c:159-181 | the last block, or the last two |
| Sha1.Sha1 | lib/libtpm/sha.c:187-205 | the digest is SHA-1 for every length |
| Sha512.SigmasAre | lib/libtpm/sha512.c:46-64 | the four sigma functions are those of section 4.1.3 |
| Sha512.ChAndMaj | lib/libtpm/sha512.c:36-44 | Ch and Maj are those of section 4.1.3 |
| Sha512.OneRound | lib/libtpm/sha512.c:132-143 | one turn of the round loop is one round of section 6.4.2 |
| Sha512.Schedule | lib/libtpm/sha512.c:107-112 | the message schedule |
| Sha512.Block | lib/libtpm/sha512.c:66-157 | the block function is the compression function of section 6.4.2 |
| Sha512.Stream | lib/libtpm/sha512.c:159-199 | the streaming loop and padding give the fold of the compression function over the padded message |
| Sha512.Finish | lib/libtpm/sha512.c:175-199 | the last block, or the last two |
| Sha512.Sha512 | lib/libtpm/sha512.c:228-249 | the digest is SHA-512 for every length |
| Sha512.Sha384 | lib/libtpm/sha512.c:205-226 | the digest is SHA-384 for every length |
| ShaConstants.Sha256RoundConstants | lib/libtpm/sha256.c:75-92 | round constant t is the first 32 bits of the fractional part of the cube root of the prime number with t primes below it (section 4.2.2) |
| ShaConstants.Sha512RoundConstants | lib/libtpm/sha512.c:75-96 | round constant t is the first 64 bits of the fractional part of the cube root of the prime number with t primes below it (section 4.2.3) |
| ShaConstants.InitialHashes | lib/libtpm/sha512.c:212-244 | the initial hashes of SHA-256, SHA-512 and SHA-384 are the fractional parts of the square roots of the first eight primes, and of the ninth to sixteenth (sections 5.3.3 to 5.3.5) |
| ShaConstants.Sha1RoundConstants | lib/libtpm/sha.c:46-48 | the four constants are 2^30 times the square roots of 2, 3, 5 and 10 |
| ShaConstants.Sha1InitialHash | lib/libtpm/sha.c:194-200 | the initial hash of section 5.3.1 as bytes |
| ShaExamples.Sha256Rounds | lib/libtpm/sha256.c:128-139 | first and last round for "abc", as published |
| ShaExamples.Sha256Schedule | lib/libtpm/sha256.c:103-108 | the last word of its message schedule |
| ShaExamples.Sha256Digest | lib/libtpm/sha256.c:140-153 | its digest from the state behind the last round |
| ShaExamples.Sha512Rounds | lib/libtpm/sha512.c:132-143 | first and last round for "abc", as published |
| ShaExamples.Sha512Schedule | lib/libtpm/sha512.c:107-112 | the last word of its message schedule |
| ShaExamples.Sha1Rounds | lib/libtpm/sha.c:85-113 | a round of each kind for "abc", as published |
| ShaExamples.Sha1Schedule | lib/libtpm/sha.c:59-66 | the last word of its message schedule |
| BlockRuns.NoRunBeyondCount | slof/allocator.c:161-162 | giving up when more blocks are asked for than are free loses no allocation |
| BlockRuns.FreeUndoesAlloc | slof/allocator.c:182-220 | releasing what was just allocated restores the state exactly |
| BlockRuns.AllocKeepsInv | slof/allocator.c:146-180 | live allocations stay disjoint and inside the region, a block is free exactly if none covers it, the counter is the number of free blocks, the lowest run is taken, and -1 means that there is no run |
| BlockRuns.FreeKeepsInv | slof/allocator.c:182-220 | releasing a live allocation keeps that |
| BitWords.OneBit | slof/allocator.c:49-66 | setting or clearing a bit of a word changes that bit only |
| BitWords.TestBit | slof/allocator.c:59-66 | the bit of the packed array |
| BitWords.SetBit | slof/allocator.c:54-57 | one bit of the packed array is set |
| BitWords.ClearBit | slof/allocator.c:49-52 | one bit of the packed array is cleared |
| Allocator.Bitmap.constructor | slof/allocator.c:131-143 | all blocks of the region are free |
| Allocator.Bitmap.Init | slof/allocator.c:116-144 | an allocator with the default block size if none is given, or a null handle |
| Allocator.Bitmap.FindBits | slof/allocator.c:68-92 | the lowest run that is long enough, or -1 |
| Allocator.Bitmap.Alloc | slof/allocator.c:146-180 | the address of that run, whose blocks are then taken, or -1 exactly if there is none |
| Allocator.Bitmap.Free | slof/allocator.c:182-220 | the blocks of an aligned range inside the region become free; others are refused |
| Allocator.Bitmap.Do | slof/allocator.c:146-220 | one request of a run |
| Allocator.Bitmap.Run | slof/allocator.c:146-220 | over every run the byte ranges that callers hold lie in the region and do not overlap |
| Reassembly.PieceStored | lib/libnet/ipv4.c:353-369 | a fragment is stored at its offset and disturbs no byte that is already right |
| Reassembly.MiddleStored | lib/libnet/ipv4.c:353-374 | after any middle fragments and foreign packets every byte that has arrived is in place |
| Reassembly.LastHandsUp | lib/libnet/ipv4.c:365-383 | the last fragment hands the buffer up with the full length, whatever has arrived |
| Reassembly.HandsUp | lib/libnet/ipv4.c:344-384 | first fragment first, last one last, and between them any order, repetitions, gaps and other traffic: the packet handed up has the length of the datagram, the bytes that some fragment brought, and for the others what was in the buffer before |
| Reassembly.ReassemblesDatagram | lib/libnet/ipv4.c:344-384 | it has the data of the datagram exactly if every byte that no fragment brought was in the buffer already, so whenever every byte was brought (section 3.2 of RFC 791) |
| Reassembly.OtherFirstFragmentWins | lib/libnet/ipv4.c:345-363 | the first fragment of another datagram makes the rest of the old one be dropped |
| Reassembly.Reassembler.HandlePacket | lib/libnet/ipv4.c:344-384 | the buffer and the packet handed up, for every packet for which the code stays within its buffers |
| ArpCache.StepKeepsInv | lib/libnet/ipv4.c:482-514 | packets and replies keep at most nine entries with distinct addresses |
| ArpCache.RunKeepsInv | lib/libnet/ipv4.c:482-514 | so does every run |
| ArpCache.LookupIsExact | lib/libnet/ipv4.c:602-611 | a lookup finds exactly the live entry of an address |
| ArpCache.RunKeepsResolved | lib/libnet/ipv4.c:504-514 | eviction is first in, first out, and a resolved MAC address does not change while its entry stays |
| ArpCache.StaysForEight | lib/libnet/ipv4.c:504-514 | the capacity is exact: an address that is not asked for again stays in the table exactly as long as fewer than nine entries were added behind it |
| ArpCache.SentIsHeard | lib/libnet/ipv4.c:482-519 | a packet is only sent to a MAC address that a reply gave for its next hop |
| ArpCache.ReplyIsUsed | lib/libnet/ipv4.c:732-760 | after an accepted reply every packet for that host is sent to its MAC address until the entry is evicted |
| ArpCache.ReleasedPacket | lib/libnet/ipv4.c:752-759 | the waiting packet a reply releases is the one for the replying host exactly if its entry is the newest |
| ArpCache.PacketGoesAstray | lib/libnet/ipv4.c:752-759 | a concrete run in which a late reply sends the packet of one host to another |
| ArpRing.WindowInsert | lib/libnet/ipv4.c:504-514 | inserting at the producer, and moving the consumer if the ring is full, is insertion with eviction of the oldest |
| ArpRing.WindowUpdate | lib/libnet/ipv4.c:749-749 | changing a slot of the ring changes one live entry |
| ArpRing.Table.constructor | lib/libnet/ipv4.c:135-149 | an empty table |
| ArpRing.Table.Find | lib/libnet/ipv4.c:602-611 | the search ends, at the slot of the entry or at the producer |
| ArpRing.Table.SendTo | lib/libnet/ipv4.c:482-519 | a known next hop is used, a pending one makes the packet be dropped, an unknown one is entered |
| ArpRing.Table.HandleReply | lib/libnet/ipv4.c:732-760 | a reply is accepted exactly for a pending entry, and what it releases |
| Checksum.FoldsOnesSum | lib/libnet/ipv4.c:590-600 | for up to 65537 words two folds give exactly the complemented one's complement sum (section 1 of RFC 1071) |
| Checksum.OnesSumIs | lib/libnet/ipv4.c:590-600 | the one's complement sum is the plain sum modulo 65535, with 0 for 0 only |
| Checksum.Compute | lib/libnet/ipv4.c:590-600 | the checksum of a header |
| Checksum.StoredChecksumVerifies | lib/libnet/ipv4.c:459-461 | storing the checksum in its zeroed field makes the checksum of the whole header 0 |
| Crc.TimesX4IsTable | board-js2x/rtas/rtas_out.c:98-103 | the low table is reduction by four bits |
| Crc.HighIsTimesX4 | board-js2x/rtas/rtas_out.c:92-97 | the high table is the low one reduced by four more bits |
| Crc.TableStepIs | board-js2x/rtas/rtas_out.c:113-116 | one turn of the loop is eight steps of the division |
| Crc.CrcIsRemainder | board-js2x/rtas/rtas_out.c:88-120 | for every byte string and start value the CRC is the remainder of bit-by-bit polynomial division by x^32 + 0x04C11DB7 |
| Crc.CrcAppends | board-js2x/llfw/stage2.c:126-143 | the CRC of a concatenation continues with the CRC of the first part |
| Crc.ImageCheck | board-js2x/llfw/stage2.c:212-219 | an image has CRC 0 exactly if its last four bytes are the big-endian CRC of the rest |
| Crc.CheckFlashImage | board-js2x/rtas/rtas_out.c:88-120 | the loop |
| DnsNames.JoinUndoesSplit | lib/libnet/dns.c:498-526 | the labels with dots between them are the host name |
| DnsNames.LabelsHaveNoDots | lib/libnet/dns.c:498-526 | every dot separates: no label holds one |
| DnsNames.WireLength | lib/libnet/dns.c:498-526 | a host name of n bytes takes n + 2 bytes |
| DnsNames.ReadsLabels | lib/libnet/dns.c:400-421 | a series of labels is read back |
| DnsNames.ReadsWholeName | lib/libnet/dns.c:394-427 | an uncompressed name is read back, with the position behind it |
| DnsNames.PointerReplacesSuffix | lib/libnet/dns.c:401-406 | replacing a suffix by one compression pointer gives the same name and the position just past the pointer (section 4.1.4 of RFC 1035) |
| DnsNames.LastIsNextUnlessChained | lib/libnet/dns.c:423-426 | the position that is returned is the one behind the name exactly if at most one pointer was followed |
| Dns.HostToDomain | lib/libnet/dns.c:498-526 | the labels of the host name, or the empty string exactly for too long names and labels |
| Dns.ExtractName | lib/libnet/dns.c:394-427 | the name without compression, or the empty string exactly for more than 255 bytes; with pointers that go backwards the loop ends |
| Dns.ReadsBackHost | lib/libnet/dns.c:394-526 | what hosttodomain writes for a host name of at most 254 bytes with regular labels is read back, with the position just past it |

## Left out

- TcgBios.Firmware.ExtendPcr: a command that the TPM refuses is taken to leave the PCRs unchanged, and PCRs change through these commands only.
- TftpNetwork.TransferIsSafe: the read request, its repetition at timeouts and a server that restarts on a repeated one are not modelled, and neither is a packet that is received while an acknowledgement waits for its MAC address.
- Tftp.BlksizeMustComeFirst: reads past the end of a malformed option packet, and the wrap of the counter of bad packets, are not modelled.
- BcmTx.Driver.Xmit: frames have at most 1536 bytes; the caller must not pass longer ones, because the code copies them without a check.
- BcmRx.Driver.Receive: the controller reports at least 4 bytes for a frame, as the hardware does; the model has no shorter ones.
- BcmTx.RingIsConserved: register and mailbox access, memory barriers and PHY handling are not modelled; the indices are read and written atomically.
- Ipv6.Ipv6ToStr: sprintf is taken to copy the string onto itself and then to print the rest, as the library does; overlapping copies are undefined in standard C.
- Ipv6.StrToIpv6: texts are values without embedded terminators.
- Nvram.Memory.GetPartition: the lookups that do not return (Hangs: looking for type 0, the walk meets a length 0 without a match) are excluded.
- Nvram.Memory.Reset: what nvramlog_printf writes into the log partition during the reset is not modelled; the memory must hold the fixed partitions, and be smaller than 2 GB.
- Nvram.Memory.Erase: the variants that access NVRAM through RTAS or a hypervisor buffer are not modelled.
- Nvram.Memory.Run: nvram_del_env and increase_nvram_partition_size are not part of the runs, as they do not keep the layout; clear_nvram_partition is the write of zeros into a whole partition.
- EnvVar.Store.SetEnv: stores with strings of 256 bytes and more, which the buffers of the code cut, are excluded.
- DhcpMerge.MergeOptions: moved tails of more than 1024 bytes, lists that outgrow their buffer, and merged values of more than 255 bytes, are excluded; the code overruns its buffers or its length bytes there.
- DhcpOverload.DecodeOverloaded: what handle_dhcp does before and behind the decoding (message and transaction ids, BOOTP replies, the state of the client) is not modelled.
- Dhcp.Options.DecodeOptions: the strings of the two pxelinux options are not kept, only their flags.
- Dhcp.Options.EncodeOptions: strings of more than 254 bytes and all 256 requested codes are excluded; their length bytes would wrap.
- Sha256.Schedule: the block is converted to words in an array of its own; in the code both share memory, which big-endian order makes equal.
- Allocator.Bitmap.Alloc: regions of 2^31 blocks and more, whose block numbers do not fit an int, are excluded.
- Allocator.Bitmap.Free: addresses that are not on a block boundary are excluded; the code would set bits of a neighbour.
- Allocator.Bitmap.Run: the region is a whole number of blocks; otherwise the last block reaches beyond it and cannot be released.
- Reassembly.Reassembler.HandlePacket: packets whose length field makes the code leave its buffers, or is less than 20 in a later fragment, are excluded; the code checks neither. Destination filter and checksum test come before it.
- ArpRing.Table.SendTo: the wait for the reply inside send_ipv4 is a later event; broadcast and multicast destinations do not touch the table.
- Dns.ExtractName: compression pointers go to before the segment they are in; with others the code may loop.
- Dns.HostToDomain: the buffer has room for two bytes more than the host name; the 256-byte buffer of the code does for names of at most 254 bytes.
- Raw packet headers, UDP and ICMP dispatch, TPM menus and bank allocation, ELF loading, flash and PCI access and the boot flow are left out: straight-line code, or behaviour of hardware.
- lib/libe1k/e1k.c is left out: one fixed buffer per descriptor, an easier form of the rings that are modelled.
- tools/sloffs.c is left out: file access around a CRC library that is not part of this model.
