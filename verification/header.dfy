/** The fixed QCOW2 header (src/format/header.rs), laid out as in the "Header"
    section of QEMU's qcow2 format description: big-endian fields at fixed
    offsets 0-103, and for a 112-byte header one more byte at 104 naming the
    compression type. */
module Headers {

  import opened Bytes
  import opened Results
  import opened Parsing
  import opened HostFile

  datatype Encryption = None | Aes | Luks | Unknown

  datatype Compression = Zlib | Zstd | None | Unknown

  datatype IncompatFlag = Dirty | Corrupt | DataFile | Compression | ExtendedL2 | Unknown

  datatype CompatFlag = LazyRefCounts

  datatype AutoClear = Bitmaps | DataFileRaw

  datatype Header = Header(
    sig: nat,
    version: nat,
    backingFilenameOffset: nat,
    backingFilenameSize: nat,
    clusterBits: nat,
    size: nat,
    encryptionMethod: Encryption,
    level1Ref: nat,
    level1Offset: nat,
    refTableOffset: nat,
    refTableClusterCount: nat,
    snapshotsCount: nat,
    snapshotOffset: nat,
    incompatFlags: seq<IncompatFlag>,
    compatFlags: seq<CompatFlag>,
    autoClearFlags: seq<AutoClear>,
    refCountOrder: nat,
    headerSize: nat,
    compressionMethod: Compression)

  /** The header size that carries the compression-type byte. */
  const CompressedHeaderSize: nat := 112

  /** Numeric code of an encryption method, for the known ones. */
  function EncryptionCode(e: Encryption): Option<nat> {
    match e
    case None => Some(0)
    case Aes => Some(1)
    case Luks => Some(2)
    case Unknown => Nothing
  }

  /** `get_encrypt`: codes 0, 1, 2 name a method, any other is `Unknown`. */
  function EncryptionOf(code: nat): (e: Encryption)
    ensures e.Unknown? <==> code > 2
    ensures !e.Unknown? ==> EncryptionCode(e) == Some(code)
  {
    match code
    case 0 => Encryption.None
    case 1 => Aes
    case 2 => Luks
    case _ => Encryption.Unknown
  }

  function CompressionCode(c: Compression): Option<byte> {
    match c
    case Zlib => Some(0)
    case Zstd => Some(1)
    case _ => Nothing
  }

  /** The compression-type byte: 0 is zlib, 1 is zstd, anything else `Unknown`
      (never `None`, which stands for "no such byte"). */
  function CompressionOf(b: byte): (c: Compression)
    ensures c != Compression.None
    ensures c.Unknown? <==> b > 1
    ensures !c.Unknown? ==> CompressionCode(c) == Some(b)
  {
    if b == 0 then Zlib
    else if b == 1 then Zstd
    else Compression.Unknown
  }

  /** The bit that announces an incompatible feature. */
  function IncompatBit(f: IncompatFlag): nat {
    match f
    case Dirty => 0
    case Corrupt => 1
    case DataFile => 2
    case Compression => 3
    case ExtendedL2 => 4
    case Unknown => 5
  }

  /** `get_incompat_flags`: one flag per set bit among bits 0-4, in ascending bit
      order; higher bits are ignored and `Unknown` is never produced. */
  function IncompatFlagsOf(v: nat): (r: seq<IncompatFlag>)
    ensures forall f :: f in r <==> !f.Unknown? && Bit(v, IncompatBit(f))
    ensures forall i, j :: 0 <= i < j < |r| ==> IncompatBit(r[i]) < IncompatBit(r[j])
  {
    (if Bit(v, 0) then [Dirty] else [])
    + (if Bit(v, 1) then [Corrupt] else [])
    + (if Bit(v, 2) then [DataFile] else [])
    + (if Bit(v, 3) then [IncompatFlag.Compression] else [])
    + (if Bit(v, 4) then [ExtendedL2] else [])
  }

  /** `get_compat_flags`: bit 0 is lazy refcounts, all other bits are ignored. */
  function CompatFlagsOf(v: nat): (r: seq<CompatFlag>)
    ensures LazyRefCounts in r <==> Bit(v, 0)
    ensures |r| <= 1
  {
    if Bit(v, 0) then [LazyRefCounts] else []
  }

  function AutoClearBit(f: AutoClear): nat {
    match f
    case Bitmaps => 0
    case DataFileRaw => 1
  }

  /** `get_auto_clear_flags`: bit 0 is bitmaps, bit 1 raw external data, in that
      order; all other bits are ignored. */
  function AutoClearFlagsOf(v: nat): (r: seq<AutoClear>)
    ensures forall f :: f in r <==> Bit(v, AutoClearBit(f))
    ensures forall i, j :: 0 <= i < j < |r| ==> AutoClearBit(r[i]) < AutoClearBit(r[j])
  {
    (if Bit(v, 0) then [Bitmaps] else []) + (if Bit(v, 1) then [DataFileRaw] else [])
  }

  /** The value of the big-endian field at `data[at..at + width]`. */
  function Field(data: seq<byte>, at: nat, width: nat): nat
    requires at + width <= |data|
  {
    BeUint(data[at..at + width])
  }

  /** `h` holds the fields stored in the first 104 bytes of `data`. */
  predicate FixedFieldsAt(data: seq<byte>, h: Header)
    requires |data| >= 104
  {
    && h.sig == Field(data, 0, 4)
    && h.version == Field(data, 4, 4)
    && h.backingFilenameOffset == Field(data, 8, 8)
    && h.backingFilenameSize == Field(data, 16, 4)
    && h.clusterBits == Field(data, 20, 4)
    && h.size == Field(data, 24, 8)
    && h.encryptionMethod == EncryptionOf(Field(data, 32, 4))
    && h.level1Ref == Field(data, 36, 4)
    && h.level1Offset == Field(data, 40, 8)
    && h.refTableOffset == Field(data, 48, 8)
    && h.refTableClusterCount == Field(data, 56, 4)
    && h.snapshotsCount == Field(data, 60, 4)
    && h.snapshotOffset == Field(data, 64, 8)
    && h.incompatFlags == IncompatFlagsOf(Field(data, 72, 8))
    && h.compatFlags == CompatFlagsOf(Field(data, 80, 8))
    && h.autoClearFlags == AutoClearFlagsOf(Field(data, 88, 8))
    && h.refCountOrder == Field(data, 96, 4)
    && h.headerSize == Field(data, 100, 4)
  }

  /** `h` holds the fields stored in `data`, and the compression method that the
      header size and byte 104 select. */
  predicate FieldsAt(data: seq<byte>, h: Header)
    requires |data| >= 104
  {
    && FixedFieldsAt(data, h)
    && h.compressionMethod ==
         (if h.headerSize == CompressedHeaderSize && |data| > 104 then CompressionOf(data[104])
          else Compression.None)
  }

  /** `Header::get_header`: the fixed fields in order, then the compression byte
      only when the header size is 112.  It fails exactly when the input ends
      before the fields it needs. */
  function GetHeader(data: seq<byte>): (r: Nom<Header>)
    ensures r.Done? <==> |data| >= 104 && (Field(data, 100, 4) == CompressedHeaderSize ==> |data| >= 105)
    ensures r.Done? ==> FieldsAt(data, r.value)
    ensures r.Done? ==> r.rest == data[if r.value.headerSize == CompressedHeaderSize then 105 else 104..]
  {
    var fixed := GetFixedFields(data);
    if fixed.Failed? then Failed
    else
      var f := fixed.value;
      assert f.headerSize == Field(data, 100, 4);
      if f.headerSize == CompressedHeaderSize then
        var b := TakeBe(fixed.rest, 1);
        if b.Failed? then Failed
        else
          TakeByte(data, 104);
          FixedFieldsIgnoreCompression(data, f, CompressionOf(b.value));
          Done(b.rest, f.(compressionMethod := CompressionOf(b.value)))
      else
        Done(fixed.rest, f)
  }

  /** `be_u8` at offset `k` of a suffix reads byte `k`. */
  lemma TakeByte(data: seq<byte>, k: nat)
    requires k < |data|
    ensures TakeBe(data[k..], 1) == Done(data[k + 1..], data[k])
  {
    assert data[k..][..1] == [data[k]];
  }

  lemma FixedFieldsIgnoreCompression(data: seq<byte>, h: Header, c: Compression)
    requires |data| >= 104 && FixedFieldsAt(data, h)
    ensures FixedFieldsAt(data, h.(compressionMethod := c))
  {
  }

  /** The eighteen fixed-width fields.  The source consumes them one after
      another with `be_u32`/`be_u64`; as every width is fixed, each field is the
      big-endian value at its absolute offset. */
  function GetFixedFields(data: seq<byte>): (r: Nom<Header>)
    ensures r.Done? <==> |data| >= 104
    ensures r.Done? ==> r.rest == data[104..]
    ensures r.Done? ==> FixedFieldsAt(data, r.value) && r.value.compressionMethod == Compression.None
  {
    if |data| < 104 then Failed
    else
      Done(data[104..], Header.Header(
        Field(data, 0, 4), Field(data, 4, 4), Field(data, 8, 8), Field(data, 16, 4),
        Field(data, 20, 4), Field(data, 24, 8), EncryptionOf(Field(data, 32, 4)),
        Field(data, 36, 4), Field(data, 40, 8), Field(data, 48, 8), Field(data, 56, 4),
        Field(data, 60, 4), Field(data, 64, 8),
        IncompatFlagsOf(Field(data, 72, 8)), CompatFlagsOf(Field(data, 80, 8)),
        AutoClearFlagsOf(Field(data, 88, 8)),
        Field(data, 96, 4), Field(data, 100, 4), Compression.None))
  }

  /** The 112 bytes `header()` reads at offset 0 of the host, zero-filled where
      the host is shorter. */
  function HeaderBytes(host: seq<byte>): (r: seq<byte>)
    ensures |r| == 112
  {
    seq(112, i requires 0 <= i < 112 => PaddedByte(host, 0, i))
  }

  /** `CalfHeader::header`: read 112 bytes at offset 0 and decode them.  Seeking to
      0 always succeeds and the zero-filled buffer is always long enough, so it
      never fails: `CalfError::Header` cannot arise. */
  function ReadHeader(host: seq<byte>): (r: Result<Header, CalfError>)
    ensures r.Ok?
    ensures FieldsAt(HeaderBytes(host), r.value)
  {
    match ReadBytes(host, 0, 112)
    case Err(e) => Err(e)
    case Ok(bytes) =>
      ReadBytesPadded(host, 0, 112);
      assert bytes == HeaderBytes(host);
      var parsed := GetHeader(bytes);
      if parsed.Failed? then Err(CalfError.Header) else Ok(parsed.value)
  }
}
