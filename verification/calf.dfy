/** The image-level accessors of `CalfReader` (src/calf.rs): each re-reads the
    header from offset 0 of the host and returns one of its fields, and
    `level1_entries` reads the L1 table the header points to. */
module Calf {

  import opened Bytes
  import opened Results
  import opened HostFile
  import opened Levels
  import opened Headers

  /** A decoded image: its header and its L1 table. */
  datatype QcowInfo = QcowInfo(header: Header, level1Table: seq<Level>)

  /** The raw header field at `at`, from the 112 bytes `header()` reads. */
  function HeaderField(host: seq<byte>, at: nat, width: nat): nat
    requires at + width <= 112
  {
    Field(HeaderBytes(host), at, width)
  }

  // `header()` cannot fail (see `ReadHeader`), so the `?` after it in each
  // accessor below never propagates an error.

  /** `version`: the big-endian word at offset 4. */
  function Version(host: seq<byte>): (r: Result<nat, CalfError>)
    ensures r == Ok(HeaderField(host, 4, 4))
  {
    var h := ReadHeader(host).value;
    Ok(h.version)
  }

  /** `size`: the guest disk size, the 64-bit word at offset 24. */
  function Size(host: seq<byte>): (r: Result<nat, CalfError>)
    ensures r == Ok(HeaderField(host, 24, 8))
  {
    var h := ReadHeader(host).value;
    Ok(h.size)
  }

  /** `encryption`: the method named by the word at offset 32. */
  function EncryptionMethod(host: seq<byte>): (r: Result<Encryption, CalfError>)
    ensures r == Ok(EncryptionOf(HeaderField(host, 32, 4)))
  {
    var h := ReadHeader(host).value;
    Ok(h.encryptionMethod)
  }

  /** `compression`: zlib or zstd from byte 104 of a 112-byte header, `None` for
      any other header size. */
  function CompressionMethod(host: seq<byte>): (r: Result<Compression, CalfError>)
    ensures r.Ok?
    ensures HeaderField(host, 100, 4) == CompressedHeaderSize ==> r.value == CompressionOf(HeaderBytes(host)[104])
    ensures HeaderField(host, 100, 4) != CompressedHeaderSize ==> r.value == Compression.None
  {
    var h := ReadHeader(host).value;
    Ok(h.compressionMethod)
  }

  /** `snapshots_count`: the word at offset 60. */
  function SnapshotsCount(host: seq<byte>): (r: Result<nat, CalfError>)
    ensures r == Ok(HeaderField(host, 60, 4))
  {
    var h := ReadHeader(host).value;
    Ok(h.snapshotsCount)
  }

  /** `cluster_bits`: the word at offset 20. */
  function ClusterBits(host: seq<byte>): (r: Result<nat, CalfError>)
    ensures r == Ok(HeaderField(host, 20, 4))
  {
    var h := ReadHeader(host).value;
    Ok(h.clusterBits)
  }

  /** `cluster_size`: `1 << cluster_bits` on a `u64`.  The shift amount is taken
      modulo 64, as a release build does. */
  function ClusterSize(host: seq<byte>): (r: Result<nat, CalfError>)
    ensures r == Ok(Pow2(HeaderField(host, 20, 4) % 64))
  {
    var h := ReadHeader(host).value;
    Ok(Pow2(h.clusterBits % 64))
  }

  /** `level1_entries`: `level_one_table_ref * 8` bytes (a `u32` product, wrapped
      as a release build does) at `level_one_table_offset`, decoded as table
      words.  It fails only when that offset is one no file position reaches;
      past the end of the host it reads as a table of unallocated entries. */
  function Level1Entries(host: seq<byte>): (r: Result<seq<Level>, CalfError>)
    ensures r.Ok? <==> CanSeek(HeaderField(host, 40, 8))
    ensures r.Err? ==> r.error == SeekFile
    ensures r.Ok? ==> |r.value| == HeaderField(host, 36, 4) * 8 % U32 / 8
  {
    var h := ReadHeader(host).value;
    LevelsAt(host, h.level1Offset, h.level1Ref * 8 % U32)
  }

  /** The L1 table holds the host's words at the header's L1 offset. */
  lemma Level1FromHost(host: seq<byte>)
    ensures var r := Level1Entries(host);
      r.Ok? ==> TableFromHost(host, HeaderField(host, 40, 8), r.value)
  {
    var h := ReadHeader(host).value;
    LevelsAtFromHost(host, h.level1Offset, h.level1Ref * 8 % U32);
  }

  /** For an image with fewer than 2^29 L1 entries the table has exactly
      `level_one_table_ref` entries. */
  lemma Level1Count(host: seq<byte>)
    requires HeaderField(host, 36, 4) < 0x2000_0000
    ensures var r := Level1Entries(host);
      r.Ok? ==> |r.value| == HeaderField(host, 36, 4)
  {
    var n := HeaderField(host, 36, 4);
    assert n * 8 % U32 == n * 8;
    assert n * 8 / 8 == n;
  }
}
