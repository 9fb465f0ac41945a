/** Boot-sector decoders (src/bootsector/mbr.rs) for the classic IBM PC layout
    of a Master Boot Record and of an extended boot record: 446 bytes of boot
    code (for the MBR, 440 bytes of code, a 4-byte disk id and 2 reserved
    bytes), four 16-byte partition entries, and the 2-byte signature 0x55 0xAA.
    Multi-byte entry fields are little-endian.  The signature is consumed but
    never checked: a mismatch in an extended boot record is only logged. */
module Mbr {

  import opened Bytes
  import opened Results
  import opened Parsing
  import opened Partitions

  /** The size of a boot sector, which both decoders consume exactly. */
  const SectorSize: nat := 512

  const EntrySize: nat := 16

  /** Where the four partition entries start in a boot sector. */
  const EntriesAt: nat := 446

  /** The type codes that name each partition kind; `Unknown`, `Fat16` and
      `ExFat` have none. */
  function TypeCodes(t: PartitionType): set<byte> {
    match t
    case None => {0x00}
    case Ntfs => {0x07, 0x27}
    case Linux => {0x83}
    case LinuxSwap => {0x82}
    case LinuxLvm => {0x8e}
    case Fat32 => {0x0c}
    case Protective => {0xee, 0xef}
    case Extended => {0x05, 0x0f}
    case _ => {}
  }

  /** `get_partition_type`: the kind whose code list holds `code`, `Unknown` when
      none does. */
  function PartitionTypeOf(code: byte): (t: PartitionType)
    ensures t != Fat16 && t != ExFat
    ensures !t.Unknown? ==> code in TypeCodes(t)
  {
    match code
    case 0x00 => PartitionType.None
    case 0x07 => Ntfs
    case 0x27 => Ntfs
    case 0x83 => Linux
    case 0x82 => LinuxSwap
    case 0x8e => LinuxLvm
    case 0x0c => Fat32
    case 0xee => Protective
    case 0xef => Protective
    case 0x05 => Extended
    case 0x0f => Extended
    case _ => PartitionType.Unknown
  }

  /** The mapping is exactly the code table: every listed code maps to its kind,
      and a code maps to `Unknown` only when no kind lists it. */
  lemma PartitionTypeCodes(code: byte, t: PartitionType)
    ensures code in TypeCodes(t) ==> PartitionTypeOf(code) == t
    ensures PartitionTypeOf(code).Unknown? ==> code !in TypeCodes(t)
  {
  }

  /** A 3-byte sector field, computed as `(b0 << 16) + (b1 << 8) + b2` on a
      `u32`: the big-endian value of the bytes, which cannot overflow. */
  function Chs(s: seq<byte>): (v: nat)
    requires |s| == 3
    ensures v < 0x100_0000
  {
    var b0: nat, b1: nat, b2: nat := s[0], s[1], s[2];
    b0 * 0x1_0000 + b1 * 0x100 + b2
  }

  /** The shifts and adds are the big-endian reading of the three bytes. */
  lemma ChsBigEndian(s: seq<byte>)
    requires |s| == 3
    ensures Chs(s) == BeUint(s)
  {
    assert s[..2][..1] == s[..1] && s[..1][..0] == [];
    assert BeUint(s[..1]) == s[0];
    assert BeUint(s[..2]) == s[0] as int * 256 + s[1] as int;
  }

  /** `parse_partition`: one 16-byte entry, and whether it is a GPT protective
      entry.  The source reads the fields one after another with `le_u8`,
      `take(3)` and `le_u32`; as each has a fixed width, each is the value at its
      fixed place in the entry: status byte 0, first sector 1-3, type code 4,
      last sector 5-7, first LBA 8-11 and sector count 12-15.  It fails only on
      fewer than 16 bytes. */
  function ParsePartition(data: seq<byte>): (r: Nom<(Partition, bool)>)
    ensures r.Done? <==> |data| >= EntrySize
    ensures r.Done? ==> r.rest == data[EntrySize..]
    ensures r.Done? ==> (r.value.1 <==> r.value.0.partitionType == Protective)
  {
    if |data| < EntrySize then Failed
    else
      var code := data[4];
      var firstLba := LeUint(data[8..12]);
      var sectors := LeUint(data[12..16]);
      assert Pow256(4) == U32;
      var part := Partition(
        PartitionTypeOf(code), code, Chs(data[1..4]), Chs(data[5..8]),
        firstLba, firstLba * 512, sectors, sectors * 512, data[0] == 0x80);
      Done(data[EntrySize..], (part, part.partitionType == Protective))
  }

  /** The fields of a decoded entry: bootable exactly for status 0x80, the type
      named by byte 4, the 24-bit sector fields, the little-endian LBA and
      sector count at bytes 8 and 12, and offset and size scaled to bytes. */
  lemma PartitionFields(data: seq<byte>)
    requires |data| >= EntrySize
    ensures var p := ParsePartition(data).value.0;
      && (p.bootable <==> data[0] == 0x80)
      && p.partitionTypeValue == data[4] && p.partitionType == PartitionTypeOf(data[4])
      && p.firstSectorOffset == BeUint(data[1..4]) && p.lastSectorOffset == BeUint(data[5..8])
      && p.firstLogicalOffset == LeUint(data[8..12]) && p.sectorsInPartition == LeUint(data[12..16])
      && p.firstLogicalOffset < U32 && p.sectorsInPartition < U32
      && p.offsetStart == p.firstLogicalOffset * SectorSize && p.partitionSize == p.sectorsInPartition * SectorSize
  {
    assert Pow256(4) == U32;
    ChsBigEndian(data[1..4]);
    ChsBigEndian(data[5..8]);
  }

  /** The decoded entry at `data[at..at + 16]`. */
  function EntryAt(data: seq<byte>, at: nat): Partition
    requires at + EntrySize <= |data|
  {
    ParsePartition(data[at..at + EntrySize]).value.0
  }

  /** A partition entry as written: status byte, the two 24-bit sector fields,
      the type code, the first LBA and the sector count. */
  datatype RawEntry = RawEntry(status: byte, firstSector: nat, typeCode: byte, lastSector: nat,
                               firstLba: nat, sectors: nat)

  predicate Encodable(e: RawEntry) {
    e.firstSector < 0x100_0000 && e.lastSector < 0x100_0000 && e.firstLba < U32 && e.sectors < U32
  }

  function EncodeEntry(e: RawEntry): (s: seq<byte>)
    ensures |s| == EntrySize
  {
    [e.status] + BeBytes(e.firstSector, 3) + [e.typeCode] + BeBytes(e.lastSector, 3)
    + LeBytes(e.firstLba, 4) + LeBytes(e.sectors, 4)
  }

  /** The partition an encodable entry stands for: offset and size scaled to
      bytes, the status reduced to "is it 0x80". */
  function Decoded(e: RawEntry): Partition
    requires Encodable(e)
  {
    Partition(PartitionTypeOf(e.typeCode), e.typeCode, e.firstSector, e.lastSector,
              e.firstLba, e.firstLba * SectorSize, e.sectors, e.sectors * SectorSize, e.status == 0x80)
  }

  /** Round trip: an encoded entry decodes to its own fields, flagged exactly
      when its type code is a protective one. */
  lemma EntryRoundTrip(e: RawEntry, tail: seq<byte>)
    requires Encodable(e)
    ensures ParsePartition(EncodeEntry(e) + tail) ==
      Done(tail, (Decoded(e), e.typeCode in TypeCodes(Protective)))
  {
    var s := EncodeEntry(e) + tail;
    PartitionFields(s);
    EncodedFields(e, tail);
    PartitionTypeCodes(e.typeCode, Protective);
  }

  /** Each field of an encodable entry reads back from its place in the
      encoding. */
  lemma EncodedFields(e: RawEntry, tail: seq<byte>)
    requires Encodable(e)
    ensures var s := EncodeEntry(e) + tail;
      && s[0] == e.status && s[4] == e.typeCode && s[16..] == tail
      && BeUint(s[1..4]) == e.firstSector && BeUint(s[5..8]) == e.lastSector
      && LeUint(s[8..12]) == e.firstLba && LeUint(s[12..16]) == e.sectors
  {
    EncodedSlices(e, tail);
    assert Pow256(3) == 0x100_0000 && Pow256(4) == U32;
    BeBytesRoundTrip(e.firstSector, 3);
    BeBytesRoundTrip(e.lastSector, 3);
    LeBytesRoundTrip(e.firstLba, 4);
    LeBytesRoundTrip(e.sectors, 4);
  }

  /** Where each field's bytes sit in an encoded entry. */
  lemma EncodedSlices(e: RawEntry, tail: seq<byte>)
    ensures var s := EncodeEntry(e) + tail;
      && s[0] == e.status && s[4] == e.typeCode && s[16..] == tail
      && s[1..4] == BeBytes(e.firstSector, 3) && s[5..8] == BeBytes(e.lastSector, 3)
      && s[8..12] == LeBytes(e.firstLba, 4) && s[12..16] == LeBytes(e.sectors, 4)
  {
    var head := [e.status] + BeBytes(e.firstSector, 3);
    var mid := head + [e.typeCode] + BeBytes(e.lastSector, 3);
    var s := EncodeEntry(e) + tail;
    assert s == mid + LeBytes(e.firstLba, 4) + LeBytes(e.sectors, 4) + tail;
    assert s[..4] == head && s[..8] == mid;
  }

  /** An encodable entry stored at `at` decodes to its fields. */
  lemma EntryAtRoundTrip(data: seq<byte>, at: nat, e: RawEntry)
    requires Encodable(e) && at + EntrySize <= |data|
    requires data[at..at + EntrySize] == EncodeEntry(e)
    ensures EntryAt(data, at) == Decoded(e)
  {
    EntryRoundTrip(e, []);
    assert EncodeEntry(e) + [] == EncodeEntry(e);
  }

  /** The `while count < max_partitions` loop of `parse_mbr`, from byte `at`:
      `k` times, decode the next 16 bytes as an entry; also whether any of them
      is a GPT protective entry.  The loop's `take(16)` fails only when fewer
      than `16 k` bytes are left, which the caller rules out, so the loop is
      read here at fixed offsets rather than on the shrinking input. */
  function EntriesFrom(input: seq<byte>, at: nat, k: nat): (r: (seq<Partition>, bool))
    requires at + EntrySize * k <= |input|
    ensures |r.0| == k
    decreases k
  {
    if k == 0 then ([], false)
    else
      var (part, gpt) := ParsePartition(input[at..at + EntrySize]).value;
      var (parts, more) := EntriesFrom(input, at + EntrySize, k - 1);
      ([part] + parts, gpt || more)
  }

  /** Entry `i` of the loop is the entry stored at byte `at + 16 i`: disk order
      is kept and no entry is skipped. */
  lemma EntriesFromEntry(input: seq<byte>, at: nat, k: nat, i: nat)
    requires at + EntrySize * k <= |input| && i < k
    ensures EntriesFrom(input, at, k).0[i] == EntryAt(input, at + EntrySize * i)
  {
    EntryOffsets(at, k, i);
    EntriesFromAt(input, at, k, i, at + EntrySize * i);
  }

  /** The same, with the entry's offset `off` named, so that every round of the
      induction speaks of the same stored entry. */
  lemma {:induction false} EntriesFromAt(input: seq<byte>, at: nat, k: nat, i: nat, off: nat)
    requires at + EntrySize * k <= |input| && i < k
    requires off == at + EntrySize * i && off + EntrySize <= |input|
    ensures EntriesFrom(input, at, k).0[i] == EntryAt(input, off)
    decreases k
  {
    if i > 0 {
      EntryOffsets(at, k, i);
      EntriesFromAt(input, at + EntrySize, k - 1, i - 1, off);
      EntriesFromNext(input, at, k, i);
    }
  }

  /** Past the first, the loop's entries are those of the loop one entry on. */
  lemma EntriesFromNext(input: seq<byte>, at: nat, k: nat, i: nat)
    requires at + EntrySize * k <= |input| && 0 < i < k
    ensures EntriesFrom(input, at, k).0[i] == EntriesFrom(input, at + EntrySize, k - 1).0[i - 1]
  {
  }

  /** Entry `i` of `k` lies within the `k` entries, one entry past entry `i - 1`. */
  lemma EntryOffsets(at: nat, k: nat, i: nat)
    requires i < k
    ensures at + EntrySize * i + EntrySize <= at + EntrySize * k
    ensures i > 0 ==> at + EntrySize + EntrySize * (i - 1) == at + EntrySize * i
  {
  }

  /** The loop's GPT flag is set exactly when one of the entries is protective. */
  lemma {:induction false} EntriesFromProtective(input: seq<byte>, at: nat, k: nat)
    requires at + EntrySize * k <= |input|
    ensures var r := EntriesFrom(input, at, k);
      r.1 <==> exists i :: 0 <= i < k && r.0[i].partitionType == Protective
    decreases k
  {
    if k > 0 {
      var r := EntriesFrom(input, at, k);
      var t := EntriesFrom(input, at + EntrySize, k - 1);
      EntriesFromProtective(input, at + EntrySize, k - 1);
      assert r.0 == [r.0[0]] + t.0;
      if r.1 && r.0[0].partitionType != Protective {
        var j :| 0 <= j < k - 1 && t.0[j].partitionType == Protective;
        assert r.0[j + 1] == t.0[j];
      }
      if exists i :: 0 <= i < k && r.0[i].partitionType == Protective {
        var i :| 0 <= i < k && r.0[i].partitionType == Protective;
        if i > 0 {
          assert t.0[i - 1] == r.0[i];
        }
      }
    }
  }

  /** `parse_mbr`: skip the 440 bytes of boot code, the 4-byte disk id and the
      2-byte reserved word, run the entry loop on what follows, and consume the
      2-byte signature.  The skipped fields have fixed widths, so the loop starts
      at byte 446 and the signature ends at byte 512.  It succeeds exactly on
      inputs of at least 512 bytes and consumes exactly 512. */
  function ParseMbr(data: seq<byte>): (r: Nom<BootInfo>)
    ensures r.Done? <==> |data| >= SectorSize
    ensures r.Done? ==> r.rest == data[SectorSize..] && |r.value.partitions| == 4
  {
    if |data| < SectorSize then Failed
    else
      var (parts, gpt) := EntriesFrom(data, EntriesAt, 4);
      Done(data[SectorSize..], BootInfo(if gpt then GuidPartitionTable else MasterBootRecord, parts))
  }

  /** Partition `i` is the entry at byte `446 + 16 i`. */
  lemma MbrEntry(data: seq<byte>, i: nat)
    requires |data| >= SectorSize && i < 4
    ensures ParseMbr(data).value.partitions[i] == EntryAt(data, EntriesAt + EntrySize * i)
  {
    EntriesFromEntry(data, EntriesAt, 4, i);
  }

  /** The table is a GPT exactly when one of the four entries is protective. */
  lemma MbrBootType(data: seq<byte>)
    requires |data| >= SectorSize
    ensures var info := ParseMbr(data).value;
      info.bootType == GuidPartitionTable <==>
        || info.partitions[0].partitionType == Protective || info.partitions[1].partitionType == Protective
        || info.partitions[2].partitionType == Protective || info.partitions[3].partitionType == Protective
  {
    var p := ParseMbr(data).value.partitions;
    EntriesFromProtective(data, EntriesAt, 4);
    if exists i :: 0 <= i < 4 && p[i].partitionType == Protective {
      var i :| 0 <= i < 4 && p[i].partitionType == Protective;
      assert i == 0 || i == 1 || i == 2 || i == 3;
    }
  }

  /** Round trip: a sector whose four entry slots encode `es` parses to their
      decoded partitions, in slot order, and is a GPT exactly when one of their
      type codes is a protective one. */
  lemma MbrRoundTrip(data: seq<byte>, es: seq<RawEntry>)
    requires |data| >= SectorSize && |es| == 4
    requires forall i :: 0 <= i < 4 ==> Encodable(es[i])
    requires forall i :: 0 <= i < 4 ==>
      data[EntriesAt + EntrySize * i..EntriesAt + EntrySize * i + EntrySize] == EncodeEntry(es[i])
    ensures var info := ParseMbr(data).value;
      && (forall i :: 0 <= i < 4 ==> info.partitions[i] == Decoded(es[i]))
      && (info.bootType == GuidPartitionTable <==> exists i :: 0 <= i < 4 && es[i].typeCode in TypeCodes(Protective))
  {
    var p := ParseMbr(data).value.partitions;
    forall i | 0 <= i < 4
      ensures p[i] == Decoded(es[i])
      ensures p[i].partitionType == Protective <==> es[i].typeCode in TypeCodes(Protective)
    {
      MbrEntry(data, i);
      EntryAtRoundTrip(data, EntriesAt + EntrySize * i, es[i]);
      PartitionTypeCodes(es[i].typeCode, Protective);
    }
    MbrBootType(data);
    if exists i :: 0 <= i < 4 && es[i].typeCode in TypeCodes(Protective) {
      var i :| 0 <= i < 4 && es[i].typeCode in TypeCodes(Protective);
      assert p[i].partitionType == Protective;
      assert i == 0 || i == 1 || i == 2 || i == 3;
    }
  }

  /** Only the 64 bytes of entries matter: the boot code, the disk id, the
      reserved word and the signature never change the result. */
  lemma MbrReadsOnlyEntries(a: seq<byte>, b: seq<byte>)
    requires |a| >= SectorSize && |b| >= SectorSize
    requires a[EntriesAt..EntriesAt + 4 * EntrySize] == b[EntriesAt..EntriesAt + 4 * EntrySize]
    ensures ParseMbr(a).value == ParseMbr(b).value
  {
    var pa, pb := ParseMbr(a).value.partitions, ParseMbr(b).value.partitions;
    forall i | 0 <= i < 4
      ensures pa[i] == pb[i]
    {
      MbrEntry(a, i);
      MbrEntry(b, i);
      var lo := EntrySize * i;
      SubSlice(a, EntriesAt, EntriesAt + 4 * EntrySize, lo, lo + EntrySize);
      SubSlice(b, EntriesAt, EntriesAt + 4 * EntrySize, lo, lo + EntrySize);
    }
    assert pa == pb;
    MbrBootType(a);
    MbrBootType(b);
  }

  /** Does the first entry of an extended boot record get its offset made
      relative to the record, and the second its offset made absolute?  So it
      is when the chain goes on, and at its end, marked by an empty second
      entry. */
  predicate Rebases(first: Partition, second: Partition) {
    first.partitionType == Extended || second.partitionType == Extended
    || second.partitionType == PartitionType.None
  }

  /** The offset rules of `parse_extended`, applied to its two decoded entries:
      an extended first entry gets `rootOffset` added; the chain goes on when
      either entry is extended; then, when `Rebases`, the second entry's offset
      gets `rootOffset` added and the first's is recomputed from its LBA and the
      record's own sector `extendedOffset / 512`.  Sums wrap as `u64`. */
  function ExtendedEntries(first: Partition, second: Partition, rootOffset: u64, extendedOffset: u64)
    : (r: (seq<Partition>, bool))
    ensures |r.0| == 2
    ensures r.1 <==> first.partitionType == Extended || second.partitionType == Extended
    ensures r.0[0] == first.(offsetStart := if Rebases(first, second)
                               then (first.firstLogicalOffset + extendedOffset / SectorSize) * SectorSize % U64
                               else first.offsetStart)
    ensures r.0[1] == second.(offsetStart := if Rebases(first, second)
                                then (second.offsetStart + rootOffset) % U64
                                else second.offsetStart)
  {
    var hasExtended := first.partitionType == Extended;
    var firstPart := if hasExtended then first.(offsetStart := (first.offsetStart + rootOffset) % U64) else first;
    var hasExtended := hasExtended || second.partitionType == Extended;
    if hasExtended || second.partitionType == PartitionType.None then
      var rebased := second.(offsetStart := (second.offsetStart + rootOffset) % U64);
      var relative := firstPart.(offsetStart := (firstPart.firstLogicalOffset + extendedOffset / SectorSize) * SectorSize % U64);
      ([relative, rebased], hasExtended)
    else
      ([firstPart, second], hasExtended)
  }

  /** `parse_extended`: the first two entries of an extended boot record with
      the offset rules of `ExtendedEntries`, and whether the chain goes on.  The
      446 unused bytes, the four entries and the signature have fixed widths, so
      the two entries are those at bytes 446 and 462 and the record ends at byte
      512.  It fails only on fewer than 512 bytes. */
  function ParseExtended(data: seq<byte>, rootOffset: u64, extendedOffset: u64): (r: Nom<(seq<Partition>, bool)>)
    ensures r.Done? <==> |data| >= SectorSize
    ensures r.Done? ==> r.rest == data[SectorSize..]
    ensures r.Done? ==> r.value == ExtendedEntries(EntryAt(data, EntriesAt), EntryAt(data, EntriesAt + EntrySize),
                                                   rootOffset, extendedOffset)
  {
    if |data| < SectorSize then Failed
    else
      Done(data[SectorSize..],
           ExtendedEntries(EntryAt(data, EntriesAt), EntryAt(data, EntriesAt + EntrySize), rootOffset, extendedOffset))
  }

  /** Round trip: a record whose entries at 446 and 462 encode `a` and `b` parses
      to them with the offset rules applied, whatever the other bytes hold. */
  lemma ExtendedRoundTrip(data: seq<byte>, a: RawEntry, b: RawEntry, rootOffset: u64, extendedOffset: u64)
    requires |data| >= SectorSize && Encodable(a) && Encodable(b)
    requires data[EntriesAt..EntriesAt + EntrySize] == EncodeEntry(a)
    requires data[EntriesAt + EntrySize..EntriesAt + 2 * EntrySize] == EncodeEntry(b)
    ensures ParseExtended(data, rootOffset, extendedOffset)
         == Done(data[SectorSize..], ExtendedEntries(Decoded(a), Decoded(b), rootOffset, extendedOffset))
  {
    EntryAtRoundTrip(data, EntriesAt, a);
    EntryAtRoundTrip(data, EntriesAt + EntrySize, b);
  }

  /** A little-endian 32-bit field, spelled out. */
  lemma LeUint4(s: seq<byte>)
    requires |s| == 4
    ensures LeUint(s) == s[0] as int + 0x100 * s[1] as int + 0x1_0000 * s[2] as int + 0x100_0000 * s[3] as int
  {
    assert s[1..][1..] == s[2..] && s[2..][1..] == s[3..] && s[3..][1..] == [];
    assert LeUint(s[3..]) == s[3] as int;
    assert LeUint(s[2..]) == s[2] as int + 0x100 * s[3] as int;
    assert LeUint(s[1..]) == s[1] as int + 0x100 * s[2] as int + 0x1_0000 * s[3] as int;
  }

  /** The kind of the entry at `at` is named by its type code. */
  lemma EntryTypeAt(data: seq<byte>, at: nat)
    requires at + EntrySize <= |data|
    ensures EntryAt(data, at).partitionType == PartitionTypeOf(data[at + 4])
  {
    assert data[at..at + EntrySize][4] == data[at + 4];
  }

  /** The first LBA and data offset of the entry at `at`, when its four
      little-endian LBA bytes spell `lba`. */
  lemma EntryOffsetAt(data: seq<byte>, at: nat, b0: byte, b1: byte, b2: byte, b3: byte, lba: nat)
    requires at + EntrySize <= |data|
    requires data[at + 8] == b0 && data[at + 9] == b1 && data[at + 10] == b2 && data[at + 11] == b3
    requires lba == b0 as int + 0x100 * b1 as int + 0x1_0000 * b2 as int + 0x100_0000 * b3 as int
    ensures EntryAt(data, at).firstLogicalOffset == lba
    ensures EntryAt(data, at).offsetStart == lba * SectorSize
  {
    var lba := data[at + 8..at + 12];
    assert data[at..at + EntrySize][8..12] == lba;
    LeUint4(lba);
  }

  /** At the end of a chain that starts at sector 0, the logical volume lands at
      its LBA in bytes and the end marker at the root offset. */
  lemma LastRecordOffsets(first: Partition, second: Partition, rootOffset: u64, lba: nat)
    requires first.partitionType != Extended && second.partitionType == PartitionType.None
    requires first.firstLogicalOffset == lba && second.offsetStart == 0 && lba * SectorSize < U64
    ensures var r := ExtendedEntries(first, second, rootOffset, 0);
      !r.1 && r.0[0].offsetStart == lba * SectorSize && r.0[1].offsetStart == rootOffset
  {
  }

  /** The entry of the `parse_partition` unit test: 7532969984 bytes long,
      first sector field 262404, not protective. */
  lemma PartitionFixture(d: seq<byte>)
    requires |d| == 16
    requires d[0] == 128 && d[1] == 4 && d[2] == 1 && d[3] == 4 && d[4] == 131 && d[5] == 254
    requires d[6] == 194 && d[7] == 255 && d[8] == 0 && d[9] == 8 && d[10] == 0 && d[11] == 0
    requires d[12] == 0 && d[13] == 128 && d[14] == 224 && d[15] == 0
    ensures var r := ParsePartition(d);
      r.Done? && r.value.0.partitionSize == 7532969984 && r.value.0.firstSectorOffset == 262404
      && r.value.0.bootable && r.value.0.partitionType == Linux && !r.value.1
  {
    assert Chs(d[1..4]) == 262404;
    LeUint4(d[12..16]);
  }

  /** The bytes of the `parse_mbr` unit test that decide what it checks: type
      codes 0x83, 0x0f, 0 and 0, and LBA 14716926 in the second entry. */
  predicate MbrFixtureBytes(data: seq<byte>) {
    && |data| == SectorSize
    && data[450] == 0x83 && data[466] == 0x0f && data[482] == 0 && data[498] == 0
    && data[470] == 254 && data[471] == 143 && data[472] == 224 && data[473] == 0
  }

  /** The sector of the `parse_mbr` unit test, whatever its boot code, is a
      Master Boot Record with four partitions whose second is an extended
      partition at byte 7535066112. */
  lemma MbrFixture(data: seq<byte>)
    requires MbrFixtureBytes(data)
    ensures var r := ParseMbr(data);
      && r.Done? && |r.value.partitions| == 4
      && r.value.bootType == MasterBootRecord
      && r.value.partitions[1].partitionType == Extended
      && r.value.partitions[1].offsetStart == 7535066112
  {
    MbrFixtureBootType(data);
    MbrEntryType(data, 1, Extended);
    MbrEntryOffset(data, 1, 254, 143, 224, 0, 14716926);
  }

  lemma MbrFixtureBootType(data: seq<byte>)
    requires |data| == SectorSize
    requires data[450] in TypeCodes(Linux) && data[466] in TypeCodes(Extended)
    requires data[482] in TypeCodes(PartitionType.None) && data[498] in TypeCodes(PartitionType.None)
    ensures ParseMbr(data).value.bootType == MasterBootRecord
  {
    MbrEntryType(data, 0, Linux);
    MbrEntryType(data, 1, Extended);
    MbrEntryType(data, 2, PartitionType.None);
    MbrEntryType(data, 3, PartitionType.None);
    MbrBootType(data);
  }

  /** MBR partition `i` is of kind `t` when its type code is one of `t`'s. */
  lemma MbrEntryType(data: seq<byte>, i: nat, t: PartitionType)
    requires |data| >= SectorSize && i < 4 && data[EntriesAt + EntrySize * i + 4] in TypeCodes(t)
    ensures ParseMbr(data).value.partitions[i].partitionType == t
  {
    MbrEntry(data, i);
    EntryTypeAt(data, EntriesAt + EntrySize * i);
    PartitionTypeCodes(data[EntriesAt + EntrySize * i + 4], t);
  }

  /** The data offset of MBR partition `i`, when its LBA bytes spell `lba`. */
  lemma MbrEntryOffset(data: seq<byte>, i: nat, b0: byte, b1: byte, b2: byte, b3: byte, lba: nat)
    requires |data| >= SectorSize && i < 4
    requires var at := EntriesAt + EntrySize * i;
      data[at + 8] == b0 && data[at + 9] == b1 && data[at + 10] == b2 && data[at + 11] == b3
    requires lba == b0 as int + 0x100 * b1 as int + 0x1_0000 * b2 as int + 0x100_0000 * b3 as int
    ensures ParseMbr(data).value.partitions[i].offsetStart == lba * SectorSize
  {
    MbrEntry(data, i);
    EntryOffsetAt(data, EntriesAt + EntrySize * i, b0, b1, b2, b3, lba);
  }

  /** The extended boot record of the LVM unit test, parsed with root offset
      832568320 and record offset 0: a logical LVM volume at LBA 2 and an empty
      end-of-chain entry.  The volume lands at byte 1024, the empty entry is
      moved to the root offset, and the chain ends. */
  lemma ExtendedLvmFixture(data: seq<byte>)
    requires |data| == SectorSize
    requires data[450] == 0x8e && data[454] == 2 && data[455] == 0 && data[456] == 0 && data[457] == 0
    requires data[466] == 0 && data[470] == 0 && data[471] == 0 && data[472] == 0 && data[473] == 0
    ensures var r := ParseExtended(data, 832568320, 0);
      && r.Done? && !r.value.1 && |r.value.0| == 2
      && r.value.0[0].partitionType == LinuxLvm && r.value.0[0].offsetStart == 1024
      && r.value.0[1].partitionType == PartitionType.None && r.value.0[1].offsetStart == 832568320
  {
    EntryTypeAt(data, EntriesAt);
    EntryTypeAt(data, EntriesAt + EntrySize);
    EntryOffsetAt(data, EntriesAt, 2, 0, 0, 0, 2);
    EntryOffsetAt(data, EntriesAt + EntrySize, 0, 0, 0, 0, 0);
    var first, second := EntryAt(data, EntriesAt), EntryAt(data, EntriesAt + EntrySize);
    assert first.partitionType == LinuxLvm && second.partitionType == PartitionType.None;
    assert first.firstLogicalOffset == 2 && second.offsetStart == 0;
    LastRecordOffsets(first, second, 832568320, 2);
  }
}
