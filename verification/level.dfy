/** L1/L2 table entries of a QCOW2 image (src/format/level.rs).

  A table is a run of big-endian 64-bit words.  Following the "Cluster mapping"
  section of QEMU's qcow2 format description, bit 63 of a word is the "copied"
  flag, bit 62 the "compressed" flag, and bits 9-55 the host offset (mask
  0x00fffffffffffe00).  Bits 0-8 and 56-61 are ignored.  An offset of 0 means
  "unallocated" and is kept as an entry like any other.
 */
module Levels {

  import opened Bytes
  import opened Results
  import opened HostFile

  datatype Level = Level(offset: nat, isCopied: bool, isCompressed: bool)

  const CopiedBit: nat := 0x8000_0000_0000_0000
  const CompressedBit: nat := 0x4000_0000_0000_0000
  /** One past the largest offset the mask keeps. */
  const OffsetLimit: nat := 0x100_0000_0000_0000

  /** The bits of a table word that the decoder ignores, as a value. */
  function IgnoredBits(w: nat): nat {
    (w / OffsetLimit % 64) * OffsetLimit + w % 512
  }

  /** Decode one table word: `offset = w & 0x00fffffffffffe00`,
      `is_copied = w & (1 << 63) != 0`, `is_compressed = w & (1 << 62) != 0`. */
  function DecodeWord(w: nat): (l: Level)
    requires w < U64
    ensures l.offset % 512 == 0 && l.offset < OffsetLimit
    ensures l.isCopied <==> (w / CopiedBit) % 2 == 1
    ensures l.isCompressed <==> (w / CompressedBit) % 2 == 1
  {
    WordSplit(w);
    Level.Level(w % OffsetLimit / 512 * 512, w / CopiedBit == 1, w / CompressedBit % 2 == 1)
  }

  /** Nothing but the ignored bits is lost: a word is the encoding of its
      decoded entry plus its ignored bits. */
  lemma WordDecomposes(w: nat)
    requires w < U64
    ensures w == EncodeLevel(DecodeWord(w)) + IgnoredBits(w)
  {
    WordSplit(w);
  }

  /** The word a table entry is written as, with all ignored bits clear. */
  function EncodeLevel(l: Level): nat {
    (if l.isCopied then CopiedBit else 0) + (if l.isCompressed then CompressedBit else 0) + l.offset
  }

  /** A word is its two flags, its masked offset and its ignored bits. */
  lemma WordSplit(w: nat)
    requires w < U64
    ensures w == (w / CopiedBit) * CopiedBit
               + (w / CompressedBit % 2) * CompressedBit
               + (w / OffsetLimit % 64) * OffsetLimit
               + w % OffsetLimit / 512 * 512
               + w % 512
    ensures w / CopiedBit < 2
  {
    var a := w / OffsetLimit;
    var b := w % OffsetLimit;
    assert w == a * OffsetLimit + b;
    assert a < 256;
    assert a == (a / 64) * 64 + a % 64;
    assert w / CompressedBit == a / 64;
    assert w / CopiedBit == a / 128;
    assert a / 64 == (a / 128) * 2 + (a / 64) % 2;
    assert b == (b / 512) * 512 + b % 512;
    assert w % 512 == b % 512;
  }

  /** Round trip: a 512-aligned offset below 2^56 with any two flags decodes
      back to exactly that entry. */
  lemma LevelRoundTrip(l: Level)
    requires l.offset % 512 == 0 && l.offset < OffsetLimit
    ensures EncodeLevel(l) < U64
    ensures DecodeWord(EncodeLevel(l)) == l
  {
    var w := EncodeLevel(l);
    var c := if l.isCopied then 1 else 0;
    var z := if l.isCompressed then 1 else 0;
    assert w == (2 * c + z) * CompressedBit + l.offset;
    assert w / CompressedBit == 2 * c + z;
    assert w / CopiedBit == c;
    assert w % OffsetLimit == l.offset;
  }

  /** `Level::get_levels`: decode 8-byte big-endian words while at least 8 bytes
      remain.  It never fails; fewer than 8 trailing bytes stay unconsumed. */
  function GetLevels(data: seq<byte>): (r: Nom<seq<Level>>)
    ensures r.Done?
    ensures |r.value| == |data| / 8
    ensures r.rest == data[|data| / 8 * 8..] && |r.rest| < 8
    decreases |data|
  {
    if |data| < 8 then Done(data, [])
    else
      var tail := GetLevels(data[8..]);
      Done(tail.rest, [DecodeWord(BeU64(data[..8]))] + tail.value)
  }

  /** Entry `i` is the decoded big-endian word at bytes `8i .. 8i + 8`: order is
      kept and no word is skipped. */
  lemma {:induction false} GetLevelsEntry(data: seq<byte>, i: nat)
    requires i < |data| / 8
    ensures GetLevels(data).value[i] == DecodeWord(BeU64(data[8 * i..8 * i + 8]))
  {
    if i == 0 {
      assert data[8 * i..8 * i + 8] == data[..8];
    } else {
      var tail := GetLevels(data[8..]).value;
      assert GetLevels(data).value == [DecodeWord(BeU64(data[..8]))] + tail;
      assert |data[8..]| / 8 == |data| / 8 - 1;
      GetLevelsEntry(data[8..], i - 1);
      var k := 8 * (i - 1);
      assert 8 + k == 8 * i;
      assert data[8..|data|] == data[8..];
      SubSlice(data, 8, |data|, k, k + 8);
      assert data[8..][k..k + 8] == data[8 * i..8 * i + 8];
    }
  }

  lemma BeUintZeros(s: seq<byte>)
    requires forall i :: 0 <= i < |s| ==> s[i] == 0
    ensures BeUint(s) == 0
  {
    if |s| > 0 {
      BeUintZeros(s[..|s| - 1]);
    }
  }

  /** A table buffer of `count` bytes read at `offset`: entry `i` decodes the host
      word at `offset + 8i` when the host holds all of it, and is the unallocated
      entry when the host ends before it. */
  predicate TableFromHost(host: seq<byte>, offset: nat, table: seq<Level>) {
    && (forall i :: 0 <= i < |table| && offset + 8 * i + 8 <= |host| ==>
          table[i] == DecodeWord(BeU64(host[offset + 8 * i..offset + 8 * i + 8])))
    && (forall i :: 0 <= i < |table| && offset + 8 * i >= |host| ==>
          table[i] == Level.Level(0, false, false))
  }

  /** Decoding a zero-padded buffer read from the host. */
  lemma DecodePadded(host: seq<byte>, offset: nat, buf: seq<byte>)
    requires forall i :: 0 <= i < |buf| ==> buf[i] == PaddedByte(host, offset, i)
    ensures TableFromHost(host, offset, GetLevels(buf).value)
  {
    DecodePaddedWords(host, offset, buf);
    DecodePaddedZeros(host, offset, buf);
  }

  lemma DecodePaddedWords(host: seq<byte>, offset: nat, buf: seq<byte>)
    requires forall i :: 0 <= i < |buf| ==> buf[i] == PaddedByte(host, offset, i)
    ensures var table := GetLevels(buf).value;
      forall i :: 0 <= i < |table| && offset + 8 * i + 8 <= |host| ==>
        table[i] == DecodeWord(BeU64(host[offset + 8 * i..offset + 8 * i + 8]))
  {
    var table := GetLevels(buf).value;
    forall i | 0 <= i < |table| && offset + 8 * i + 8 <= |host|
      ensures table[i] == DecodeWord(BeU64(host[offset + 8 * i..offset + 8 * i + 8]))
    {
      PaddedEntry(host, offset, buf, i);
    }
  }

  lemma DecodePaddedZeros(host: seq<byte>, offset: nat, buf: seq<byte>)
    requires forall i :: 0 <= i < |buf| ==> buf[i] == PaddedByte(host, offset, i)
    ensures var table := GetLevels(buf).value;
      forall i :: 0 <= i < |table| && offset + 8 * i >= |host| ==> table[i] == Level.Level(0, false, false)
  {
    var table := GetLevels(buf).value;
    forall i | 0 <= i < |table| && offset + 8 * i >= |host|
      ensures table[i] == Level.Level(0, false, false)
    {
      PaddedEntry(host, offset, buf, i);
    }
  }

  /** One entry of a table decoded from a zero-padded buffer. */
  lemma PaddedEntry(host: seq<byte>, offset: nat, buf: seq<byte>, i: nat)
    requires forall i :: 0 <= i < |buf| ==> buf[i] == PaddedByte(host, offset, i)
    requires i < |GetLevels(buf).value|
    ensures var e := GetLevels(buf).value[i];
      && (offset + 8 * i + 8 <= |host| ==> e == DecodeWord(BeU64(host[offset + 8 * i..offset + 8 * i + 8])))
      && (offset + 8 * i >= |host| ==> e == Level.Level(0, false, false))
  {
    GetLevelsEntry(buf, i);
    if offset + 8 * i + 8 <= |host| {
      PaddedWord(host, offset, buf, 8 * i);
    }
    if offset + 8 * i >= |host| {
      PaddedZeroWord(host, offset, buf, 8 * i);
    }
  }

  lemma PaddedWord(host: seq<byte>, offset: nat, buf: seq<byte>, k: nat)
    requires forall i :: 0 <= i < |buf| ==> buf[i] == PaddedByte(host, offset, i)
    requires k + 8 <= |buf| && offset + k + 8 <= |host|
    ensures buf[k..k + 8] == host[offset + k..offset + k + 8]
  {
    var w := buf[k..k + 8];
    var h := host[offset + k..offset + k + 8];
    forall j | 0 <= j < 8 ensures w[j] == h[j] {
      assert w[j] == buf[k + j];
    }
  }

  lemma PaddedZeroWord(host: seq<byte>, offset: nat, buf: seq<byte>, k: nat)
    requires forall i :: 0 <= i < |buf| ==> buf[i] == PaddedByte(host, offset, i)
    requires k + 8 <= |buf| && offset + k >= |host|
    ensures DecodeWord(BeU64(buf[k..k + 8])) == Level.Level(0, false, false)
  {
    var w := buf[k..k + 8];
    forall j | 0 <= j < 8 ensures w[j] == 0 {
      assert w[j] == buf[k + j];
    }
    BeUintZeros(w);
    assert BeU64(w) == 0;
  }

  /** `read_level`: seek to `offset` and decode one cluster (2^bits bytes) of
      table, zero-filled where the single read came up short.  `1 << bits` is
      an `i32` shift in the source, so `bits` must stay below 31. */
  function ReadLevel(host: seq<byte>, clusterBits: nat, offset: nat): (r: Result<seq<Level>, CalfError>)
    requires clusterBits < 31
    ensures r.Ok? <==> CanSeek(offset)
    ensures r.Err? ==> r.error == SeekFile
    ensures r.Ok? ==> |r.value| == Pow2(clusterBits) / 8
  {
    var buf :- ReadBytes(host, offset, Pow2(clusterBits));
    Ok(GetLevels(buf).value)
  }

  /** Every entry of a table `read_level` returns names a sector-aligned offset
      below 2^56, which the host can always seek to. */
  lemma ReadLevelOffsets(host: seq<byte>, clusterBits: nat, offset: nat, i: nat)
    requires clusterBits < 31
    ensures var r := ReadLevel(host, clusterBits, offset);
      r.Ok? && i < |r.value| ==> r.value[i].offset % 512 == 0 && r.value[i].offset < OffsetLimit
  {
    var r := ReadLevel(host, clusterBits, offset);
    if r.Ok? && i < |r.value| {
      GetLevelsEntry(ReadBytes(host, offset, Pow2(clusterBits)).value, i);
    }
  }

  /** The table `read_level` returns holds the host's words at `offset`, and
      unallocated entries where the host has ended. */
  lemma ReadLevelFromHost(host: seq<byte>, clusterBits: nat, offset: nat)
    requires clusterBits < 31
    ensures var r := ReadLevel(host, clusterBits, offset);
      r.Ok? ==> TableFromHost(host, offset, r.value)
  {
    if CanSeek(offset) {
      ReadBytesPadded(host, offset, Pow2(clusterBits));
      DecodePadded(host, offset, ReadBytes(host, offset, Pow2(clusterBits)).value);
    }
  }

  /** `CalfLevel::levels`: read `byteCount` bytes at `offset` and decode them
      (the caller passes the entry count times 8). */
  function LevelsAt(host: seq<byte>, offset: nat, byteCount: nat): (r: Result<seq<Level>, CalfError>)
    ensures r.Ok? <==> CanSeek(offset)
    ensures r.Err? ==> r.error == SeekFile
    ensures r.Ok? ==> |r.value| == byteCount / 8
  {
    var bytes :- ReadBytes(host, offset, byteCount);
    var levels := GetLevels(bytes);
    if levels.Failed? then Err(CalfError.Level) else Ok(levels.value)
  }

  /** The table `levels` returns holds the host's words at `offset`, and
      unallocated entries where the host has ended. */
  lemma LevelsAtFromHost(host: seq<byte>, offset: nat, byteCount: nat)
    ensures var r := LevelsAt(host, offset, byteCount);
      r.Ok? ==> TableFromHost(host, offset, r.value)
  {
    if CanSeek(offset) {
      ReadBytesPadded(host, offset, byteCount);
      DecodePadded(host, offset, ReadBytes(host, offset, byteCount).value);
    }
  }
}
