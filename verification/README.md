# calf in Dafny

A model of the core of `calf`, a Rust library that reads the guest disk inside a
QCOW2 image, and proofs about it.  Three parts are modelled:

- **The QCOW2 metadata decoders.** These follow the "Header", "Header
  extensions", "Feature name table" and "Cluster mapping" sections of QEMU's
  qcow2 format description.
  - The fixed big-endian header: `Headers`.
  - L1/L2 table words: `Levels`.
  - Feature-name records: `FeatureNames`.
  - The header-extension loop: `HeaderExtensions`.
  - The image-level accessors of `CalfReader`: `Calf`.
- **The guest reader `OsReader`.** It translates a guest position to a host
  offset through the L1 and L2 tables and keeps a small cache (`Reader`).
  Its properties are in `ReaderProperties`.
- **The IBM PC boot sector.**
  - Decoding the Master Boot Record and the extended boot records: `Mbr`.
  - The walk in `boot_info`, which follows every extended partition's chain of
    extended boot records and appends what it finds after the four primary
    entries: `Boot`.
  - Properties of the walk: `BootProperties`.

How the model represents the system:

- The host file is an immutable `seq<byte>`.
- Every routine that touches it is a pure function that seeks to an absolute
  offset first (`HostFile`).
- nom's `IResult` is `Nom<T>` (`Done(rest, value)` or `Failed`).
- The reader's mutable fields become an `OsReader` value. Each operation
  returns its outcome together with the new state.
- A change made before an error is kept, as the source keeps it in its
  mutable fields.
- `u64` and `i64` arithmetic wraps, as in a release build.
- Fixed-width nom steps are read at fixed offsets. For example, the MBR entry loop reads entry i at byte 446 + 16i. Every step of `parse_mbr` fails exactly when the sector is shorter than 512 bytes, so `Mbr.ParseMbr` checks that length once.

## Model

| member | source | states |
|---|---|---|
| HostFile.HostRead | src/utils/read.rs:16-22 | one read returns the host's bytes from the offset, short only where the host ends, and nothing at or past its end |
| HostFile.ReadBytes | src/utils/read.rs:6-29 | `read_bytes` succeeds exactly when the seek does, which is for every offset below 2^63 even past the end of the host (else `SeekFile`), and then returns exactly `count` bytes |
| HostFile.ReadBytesPadded | src/utils/read.rs:15-28 | the buffer holds the host's bytes from the offset and zeros past the end of the host: a short read is not an error |
| HostFile.ReadBytesPastEnd | src/utils/read.rs:11-28 | at or past the end of the host (below 2^63) the read succeeds and the buffer is all zeros |
| Headers.EncryptionOf | src/format/header.rs:167-174 | 0, 1, 2 map to None, Aes, Luks (and back to their code), every other code to Unknown |
| Headers.CompressionOf | src/format/header.rs:127-136 | the compression byte: 0 is Zlib, 1 is Zstd, any other is Unknown; never None |
| Headers.IncompatFlagsOf | src/format/header.rs:177-196 | a flag is in the list iff its bit (0-4) is set, in strictly ascending bit order; Unknown is never produced, higher bits are ignored |
| Headers.CompatFlagsOf | src/format/header.rs:199-206 | LazyRefCounts is present iff bit 0 is set; nothing else is produced |
| Headers.AutoClearFlagsOf | src/format/header.rs:209-219 | Bitmaps iff bit 0, DataFileRaw iff bit 1, in that order |
| Headers.GetHeader | src/format/header.rs:100-164 | succeeds iff there are 104 bytes (105 when the header size field is 112); every field is the big-endian value at its fixed offset; the compression byte at 104 is read only for a 112-byte header, otherwise the method is None; exactly the bytes read are consumed |
| Headers.ReadHeader | src/format/header.rs:84-96 | `header()` never fails; its fields are those of the first 112 host bytes, zero-filled |
| Levels.DecodeWord | src/format/level.rs:84-100 | the offset is a multiple of 512 below 2^56; copied iff bit 63, compressed iff bit 62 |
| Levels.WordDecomposes | src/format/level.rs:84-100 | a word is the encoding of its decoded entry plus bits 0-8 and 56-61: nothing else is lost |
| Levels.LevelRoundTrip | src/format/level.rs:84-100 | a 512-aligned offset below 2^56 with any two flags encodes to a 64-bit word that decodes back to the same entry |
| Levels.GetLevels | src/format/level.rs:81-106 | never fails; yields len/8 entries and leaves exactly the last len mod 8 bytes |
| Levels.GetLevelsEntry | src/format/level.rs:90-102 | entry i is the decoded big-endian word at bytes 8i..8i+8: order kept, zero offsets not skipped |
| Levels.ReadLevel | src/format/level.rs:43-77 | fails with SeekFile exactly when the seek fails (an offset of 2^63 or more); otherwise 2^bits/8 entries even after a short or empty read |
| Levels.ReadLevelOffsets | src/format/level.rs:84-99 | every entry of a table read names a 512-aligned offset below 2^56, so the host can always seek there |
| Levels.ReadLevelFromHost | src/format/level.rs:48-72 | each entry decodes the host word at its place, and is the unallocated entry where the host has ended |
| Levels.LevelsAt | src/format/level.rs:28-40 | `levels` reads the given byte count and yields count/8 entries; SeekFile exactly when the seek fails, for an offset of 2^63 or more |
| Levels.LevelsAtFromHost | src/format/level.rs:28-40 | the entries are the host's words at the offset, unallocated past the end of the host |
| Calf.Version | src/calf.rs:53-55 | the big-endian word at header offset 4 |
| Calf.Size | src/calf.rs:57-59 | the 64-bit word at header offset 24 |
| Calf.EncryptionMethod | src/calf.rs:61-63 | the method named by the word at header offset 32 |
| Calf.ClusterSize | src/calf.rs:65-67 | 2 to the power of the cluster-bits word at offset 20 (shift taken mod 64) |
| Calf.CompressionMethod | src/calf.rs:69-71 | byte 104 decoded when the header-size word is 112, None otherwise |
| Calf.SnapshotsCount | src/calf.rs:73-75 | the word at header offset 60 |
| Calf.ClusterBits | src/calf.rs:77-79 | the word at header offset 20 |
| Calf.Level1Entries | src/calf.rs:81-87 | succeeds iff the L1 offset is below 2^63, wherever the host ends; (ref*8 mod 2^32)/8 entries |
| Calf.Level1FromHost | src/calf.rs:81-87 | the L1 table holds the host's words at the header's L1 offset, and unallocated entries where the host has ended |
| Calf.Level1Count | src/calf.rs:81-87 | without u32 overflow a table read has exactly `level_one_table_ref` entries |
| Clusters.ReadCluster | src/format/cluster.rs:6-25 | succeeds iff the seek does and the whole cluster lies in the host (an empty buffer always fills), then returns exactly that slice (also when compressed); otherwise UnexpectedEof, never a short buffer |
| FeatureNames.FeatureTypeOf | src/format/extensions/features.rs:63-73 | 0, 1, 2 map to Incompatible, Compatible, Autoclear (and back to their code), the rest to Unknown |
| FeatureNames.GetFeatures | src/format/extensions/features.rs:35-60 | never fails; len/48 records and fewer than 48 bytes left; record i is type byte, bit number and 46-byte name at 48i |
| FeatureNames.GrabFeatures | src/format/extensions/features.rs:22-32 | always Ok: HeaderExtensionFeatures cannot arise |
| FeatureNames.FeaturesRoundTrip | src/format/extensions/features.rs:35-60 | a table written from well-formed records decodes back to them with nothing left over |
| HeaderExtensions.Padding | src/format/extensions/extension.rs:43-47 | padding is in 1..8, rounds the body up to a multiple of 8, and is 8 exactly when the size already is a multiple of 8 |
| HeaderExtensions.GetExtensionsFrom | src/format/extensions/extension.rs:31-64 | a successful loop leaves a suffix of its input and consumes at least 9 bytes |
| HeaderExtensions.GrabExtensions | src/format/extensions/extension.rs:18-28 | a parse failure and only that becomes HeaderExtensions |
| HeaderExtensions.RecordStep | src/format/extensions/extension.rs:37-60 | one record: signature 0 stops right after its padding; 0x6803f857 replaces the features; any other is skipped |
| HeaderExtensions.RecordsStep | src/format/extensions/extension.rs:37-60 | records with non-zero signatures are applied in order |
| HeaderExtensions.TerminatedParses | src/format/extensions/extension.rs:31-64 | records ended by a zero signature parse to their replay (the last feature table wins); what follows is left |
| HeaderExtensions.UnterminatedFails | src/format/extensions/extension.rs:37-48 | without a zero-signature record the loop always ends in HeaderExtensions |
| HeaderExtensions.ShortInputFails | src/format/extensions/extension.rs:71-77 | any input under 9 bytes (such as the 4-byte one) is HeaderExtensions |
| Reader.L2Index | src/reader.rs:104-107 | the L2 index is below the entries per table |
| Reader.InCluster | src/reader.rs:151 | the byte in the cluster is below the cluster size |
| Reader.LoadTable | src/reader.rs:95-97 | an L2 table at a seekable offset has 2^bits/8 entries, also past the end of the host; a failed `read_level` (offset of 2^63 or more) becomes the empty table |
| Reader.New | src/reader.rs:34-68 | succeeds iff the L1 table is non-empty, its first entry's offset is below 2^63 and a table has an entry 0; Level or SeekFile otherwise; a coherent reader at position 0 over a zero cluster |
| Reader.RefreshLevel1 | src/reader.rs:77-101 | the new L1 key is stored before the lookup; an index past the table is UnexpectedEof with the old entry and table kept |
| Reader.UpdateKeys | src/reader.rs:103-119 | the L2 key is always the position's cluster number; failures are the L1 lookup's |
| Reader.RefreshLevel2 | src/reader.rs:103-141 | on success the L1 entry is allocated and the cached cluster is exactly the host cluster at the cached L2 offset; failures are UnexpectedEof or NotFound |
| Reader.ClusterSlice | src/reader.rs:151-159 | at most n bytes and never past the end of the cluster |
| Reader.ReadData | src/reader.rs:148-176 | at most n bytes; an error only when the raw host fallback cannot seek either (a position of 2^63 or more) |
| Reader.Read | src/reader.rs:148-176 | a successful read moves the position by exactly the bytes returned; a failed one leaves it |
| Reader.Seek | src/reader.rs:183-216 | Start sets the position; a negative End/Current target is InvalidInput with the reader unchanged; only the position ever changes |
| ReaderProperties.IndexDecomposition | src/reader.rs:78-107 | p = (l1*E + l2)*C + byte for the L1 index, L2 index and byte in the cluster |
| ReaderProperties.IndexComposition | src/reader.rs:78-107 | an L1 index, an L2 index below E and a byte below C name exactly that position |
| ReaderProperties.ReadTranslates | src/reader.rs:148-164 | a coherent reader returns min(C - pos mod C, n) host bytes from the translated offset and moves on by that many |
| ReaderProperties.ReadFromLoadedCluster | src/reader.rs:151-161 | a read after a refresh that loaded a cluster copies from it |
| ReaderProperties.RefreshTranslates | src/reader.rs:103-141 | the refresh at a translated position loads the translated cluster |
| ReaderProperties.UpdateKeysCoherent | src/reader.rs:103-119 | with an in-range L1 index the key update keeps the caches coherent |
| ReaderProperties.RefreshKeepsCoherent | src/reader.rs:103-141 | the refresh keeps a coherent reader coherent |
| ReaderProperties.AdvanceKeepsCoherent | src/reader.rs:161-162 | moving on and refreshing keeps coherence when the new L1 index is in range |
| ReaderProperties.UnallocatedReadsHost | src/reader.rs:166-174 | under an unallocated L1 entry the refresh fails with NotFound and the read returns raw host bytes at the guest position (none past the end of the host); NotFound only when that seek fails |
| ReaderProperties.PastTableFallsBack | src/reader.rs:82-93 | past the end of the L1 table the lookup fails with the key already updated, and the read falls back to the host in the same way |
| ReaderProperties.PastHostReadsNothing | src/reader.rs:166-174 | with no allocated L1 entry and a position past the end of the host (below 2^63) a read succeeds with no bytes and leaves the position |
| ReaderProperties.CachedTableFull | src/reader.rs:95-97 | a coherent reader's cached L2 table has an entry for every L2 index whenever its L1 offset is seekable |
| ReaderProperties.StaleTableServesPastEnd | src/reader.rs:82-93 | after that failure a later position under the same key is served from the stale L2 table, although no translation exists |
| ReaderProperties.SameTableUpdate | src/reader.rs:109-118 | a new cluster under the cached L1 key takes its entry from the cached table |
| ReaderProperties.SeekCurrentExact | src/reader.rs:197-212 | Current moves by exactly delta when nothing overflows |
| ReaderProperties.SeekCurrentRoundTrip | src/reader.rs:197-212 | seeking by delta and back by -delta restores the reader |
| ReaderProperties.SeekBeforeStartFails | src/reader.rs:197-212 | a target before 0 is InvalidInput and changes nothing |
| ReaderProperties.SeekFromHighPositionFails | src/reader.rs:198-204 | from a position above i64::MAX even Current(0) fails |
| ReaderProperties.SeekEndExact | src/reader.rs:186-196 | End(delta) sets size + delta, or fails with InvalidInput when that is negative |
| Mbr.PartitionTypeOf | src/bootsector/mbr.rs:80-92 | never Fat16 or ExFat; a known kind is named only by one of its listed codes |
| Mbr.PartitionTypeCodes | src/bootsector/mbr.rs:80-92 | every listed code maps to its kind, and Unknown only when no kind lists the code |
| Mbr.Chs | src/bootsector/mbr.rs:53-56 | the sector field fits in 24 bits, so the `u32` shifts and adds cannot overflow |
| Mbr.ChsBigEndian | src/bootsector/mbr.rs:53-56 | the sector field is the big-endian value of its 3 bytes |
| Mbr.ParsePartition | src/bootsector/mbr.rs:43-76 | succeeds iff 16 bytes; consumes 16; GPT flag iff the kind is Protective |
| Mbr.PartitionFields | src/bootsector/mbr.rs:43-69 | bootable iff byte 0 is 0x80; type value and kind from byte 4; sector fields big-endian at 1 and 5; LBA and count little-endian at 8 and 12, below 2^32; offset and size are those times 512 |
| Mbr.EntryRoundTrip | src/bootsector/mbr.rs:43-76 | an encoded entry decodes to its own fields, flagged exactly for a protective code |
| Mbr.EntriesFrom | src/bootsector/mbr.rs:26-37 | the loop yields exactly k entries |
| Mbr.EntriesFromEntry | src/bootsector/mbr.rs:26-31 | entry i is the one stored 16i bytes on: disk order, nothing skipped |
| Mbr.EntriesFromProtective | src/bootsector/mbr.rs:30-35 | the GPT flag is set iff some entry is protective |
| Mbr.ParseMbr | src/bootsector/mbr.rs:9-40 | succeeds iff at least 512 bytes; consumes exactly 512; exactly 4 partitions |
| Mbr.MbrEntry | src/bootsector/mbr.rs:9-40 | partition i is the entry at byte 446 + 16i |
| Mbr.MbrBootType | src/bootsector/mbr.rs:16-35 | GuidPartitionTable iff one of the four entries is Protective |
| Mbr.MbrRoundTrip | src/bootsector/mbr.rs:9-76 | a sector with four encoded entries parses to them in slot order, GPT iff one type code is protective |
| Mbr.MbrReadsOnlyEntries | src/bootsector/mbr.rs:10-38 | boot code, disk id, reserved word and signature never change the result |
| Mbr.ExtendedEntries | src/bootsector/mbr.rs:109-147 | two entries; chain goes on iff either is Extended; when it does, or the second is None, the second is moved by the root offset and the first is set to (LBA + record offset/512)*512; otherwise raw |
| Mbr.ParseExtended | src/bootsector/mbr.rs:95-148 | succeeds iff 512 bytes; consumes 512; the entries at 446 and 462 with the offset rules; the signature is not checked |
| Mbr.ExtendedRoundTrip | src/bootsector/mbr.rs:95-148 | a record with two encoded entries parses to them with the offset rules, whatever else it holds |
| Mbr.LastRecordOffsets | src/bootsector/mbr.rs:136-143 | at a chain's end the logical volume lands at its LBA in bytes and the empty entry at the root offset |
| Mbr.PartitionFixture | src/bootsector/mbr.rs:180-187 | the unit-test entry is 7532969984 bytes, first sector field 262404, bootable Linux, not GPT |
| Mbr.MbrFixture | src/bootsector/mbr.rs:189-224 | the unit-test sector is an MBR of four partitions whose second is Extended at 7535066112 |
| Mbr.ExtendedLvmFixture | src/bootsector/mbr.rs:226-255 | the LVM unit-test record: LinuxLvm at 1024, None at 832568320, chain ends |
| Boot.SectorAt | src/bootsector/boot.rs:54-65 | one read into a zero-filled 512-byte buffer; only ReadFile can arise |
| Boot.SectorContents | src/bootsector/boot.rs:59-65 | the sector is what one read returns followed by zeros, not retried; it fails iff that read fails |
| Boot.FollowLinks | src/bootsector/boot.rs:111-144 | a round only ever appends whole records to what was found and to what is followed next; only ReadFile can arise |
| Boot.WalkChain | src/bootsector/boot.rs:108-147 | a chain yields whole records; a failure is ReadFile or running out of rounds |
| Boot.WalkPrimaries | src/bootsector/boot.rs:78-104 | the primaries yield whole records; a failure is ReadFile or running out of rounds |
| Boot.GetBootInfo | src/bootsector/boot.rs:51-152 | the result keeps the four MBR partitions and appends whole records after them; SeekFile, ParseMbr and ExtendedPartition cannot arise |
| BootProperties.FollowLinksSkips | src/bootsector/boot.rs:111-114 | a round over entries none of which is Extended reads nothing and adds nothing |
| BootProperties.FollowLinksStep | src/bootsector/boot.rs:111-144 | at an Extended entry a failed read ends the round with ReadFile; otherwise the record's two entries are found, queued for the next round exactly when it says the chain goes on, its flag becomes the round's, and the round continues from the reader the read left |
| BootProperties.WalkChainStep | src/bootsector/boot.rs:108-147 | a round's failure is the chain's; otherwise the chain is the round's entries followed by the chain from the queued entries under the round's flag, one round less of bound |
| BootProperties.SectorPastHost | src/bootsector/boot.rs:90-104 | a sector at a guest offset past the end of the host with no allocated L1 entry reads as 512 zeros, so the walk goes on |
| BootProperties.WalkPrimariesSkips | src/bootsector/boot.rs:78-82 | primaries none of which is Extended start no chain |
| BootProperties.WalkPrimariesFirstRecord | src/bootsector/boot.rs:84-104 | an Extended primary contributes first the two entries of the record at its offset, parsed with that offset as root |
| BootProperties.BootInfoStartsWithMbr | src/bootsector/boot.rs:54-149 | a result is the MBR read at offset 0: its boot type and its four partitions first |
| BootProperties.NoExtendedIsMbr | src/bootsector/boot.rs:75-151 | without an Extended primary the result is exactly the parsed MBR |
| BootProperties.WalkChainFuel | src/bootsector/boot.rs:108-147 | a chain that ended within the bound gives the same result under any larger bound |
| BootProperties.WalkPrimariesFuel | src/bootsector/boot.rs:78-148 | likewise for the walk over all primaries |
| BootProperties.BootInfoFuel | src/bootsector/boot.rs:51-152 | a result reached within the bound is the result for every larger bound |

## Left out

- Logging: `warn!`, `error!`, `debug!` and `println!` have no effect on results and are not modelled.
  - This includes the warnings for a short read, an unexpected record signature, a compressed cluster, and an extended first entry.
- Compression: zlib and zstd clusters are never decompressed by the source. `Clusters.ReadCluster` returns the raw bytes and ignores the method.
- Feature names: the names are kept as their 46 raw bytes.
  - UTF-8 validation and the base64 fallback of `extract_utf8_string` (src/utils/strings.rs) are not part of this model.
  - `FeatureNames.NameText` describes only the trailing-NUL trimming.
- Real I/O: the host is a byte sequence that behaves as a `std::fs::File` does.
  - A seek to any offset below 2^63 succeeds, also past the end; a read there returns no bytes.
  - The only I/O failure is a seek to an offset of 2^63 or more, which a file position (an `i64`) cannot hold.
  - A host read never fails and is short only at the end.
  - So `ReadFile` from `read_bytes` and `read_level`, and `Level` from `levels`, cannot arise here.
  - OS error sources are not modelled.
- Borrowed references: the `'qcow` reference to the cached L1 entry is an owned copy.
- Revisions: the source files come from different revisions.
  - `parse_extended` is modelled with three arguments, as mbr.rs defines it.
  - At the two call sites in boot.rs, which pass two, the record offset is taken to be the offset just sought to. For the first record of a chain that is the root offset.
  - `os_reader` calls a `setup_reader` that is not shown; `Reader.New` models `new`.
- Image-level tests: the tests over binary images need files that are not part of this model.
  - These are header.rs:230-246, mbr.rs:158-170, calf.rs:114-198, boot.rs:163-180 and cluster.rs's test.
  - The partition counts 12 and 6 and the offsets 1024 and 92160 of calf.rs:150-194 belong to the older two-argument `parse_extended`. They are not stated.
- Byte-array unit tests: the tests of header.rs:249-264, features.rs:81-141 and extension.rs:79-107 are not restated as fixtures.
  - `Headers.GetHeader`, `FeatureNames.GetFeatures` and `HeaderExtensions.TerminatedParses` state the decoding they check for every input.
  - The boot-sector fixtures are stated over the bytes that decide the asserted values; the other bytes are left free.
- `Boot.GetBootInfo`: states that the appended entries come in whole records (pairs). It does not state that their number is twice the number of records read.
  - `BootProperties.WalkPrimariesFirstRecord` and `BootProperties.BootInfoStartsWithMbr` pin down the first pieces.
- `Boot.WalkChain`: the source's `while has_extended` has no cycle guard, so a chain that points back never ends.
  - Each chain is followed for at most `fuel` rounds, and exceeding it is `OutOfFuel`.
  - `BootProperties.BootInfoFuel` shows the bound only ever cuts a walk short.
- `Mbr.ExtendedEntries`: `offset_start += root_offset` and the recomputed first offset can overflow a `u64`. A debug build panics there; the model wraps as a release build does.
- `Levels.ReadLevel`: requires fewer than 31 cluster bits, because `1 << cluster_bits` is an `i32` shift that overflows from 31 on. The same bound is on `Reader.New` and `Reader.Valid`.
- `Reader.Read`: the position advance wraps as a `u64` rather than panicking.
- src/error.rs is mirrored as a datatype (`Results.CalfError`, `Results.IoError`); its `Display` strings are left out.
- `examples/cow.rs` and `tests/qcow_tests.rs` are callers over real images and are not modelled.
