/** The guest-disk reader `OsReader` (src/reader.rs).

  A guest position `p` with cluster size `C` splits into an L1 index
  `(p / C) / (C / 8)`, an L2 index `(p / C) % (C / 8)` and a byte in the
  cluster `p % C`.  The reader keeps one L1 entry, one L2 table, one L2 entry
  and one cluster of bytes cached, keyed by `level1Key` and `level2Key`.

  The state is an immutable value: every operation returns its outcome and the
  new state.  Changes made before an error are kept, as the source keeps them
  in its mutable fields.  `u64` and `i64` arithmetic wraps as in a release
  build.
 */
module Reader {

  import opened Bytes
  import opened Results
  import opened HostFile
  import opened Levels
  import opened Headers
  import opened Clusters
  import opened Calf

  datatype OsReader = OsReader(
    position: u64,
    clusterBits: nat,
    clusterSize: nat,
    osSize: nat,
    level1Key: nat,
    level1Cache: Level,
    level2TableCache: seq<Level>,
    level2Cache: Level,
    clusterBytes: seq<byte>,
    level2Key: nat)

  /** The shape every reader built by `New` keeps: a cluster of `2^bits` bytes
      (at least 8, so that a cluster holds at least one L2 entry) and a cached
      cluster of exactly that size. */
  predicate Valid(s: OsReader) {
    && s.clusterBits < 31
    && s.clusterSize == Pow2(s.clusterBits)
    && s.clusterSize >= 8
    && |s.clusterBytes| == s.clusterSize
  }

  /** Two readers over the same image geometry. */
  predicate SameShape(a: OsReader, b: OsReader) {
    a.clusterBits == b.clusterBits && a.clusterSize == b.clusterSize && a.osSize == b.osSize
  }

  /** L2 entries per table. */
  function Entries(s: OsReader): (e: nat)
    requires Valid(s)
    ensures e >= 1
  {
    s.clusterSize / 8
  }

  /** The guest cluster number of position `p`, which is the L2 key; its L1
      index, L2 index and byte in the cluster. */
  function ClusterNumber(s: OsReader, p: nat): nat
    requires Valid(s)
  {
    DivNat(p, s.clusterSize);
    p / s.clusterSize
  }

  /** Dividing a natural number by a positive one gives a natural number. */
  lemma DivNat(a: nat, d: nat)
    requires d > 0
    ensures a / d >= 0
  {
    assert a == a / d * d + a % d;
  }

  function L1Index(s: OsReader, p: nat): nat
    requires Valid(s)
  {
    DivNat(ClusterNumber(s, p), Entries(s));
    ClusterNumber(s, p) / Entries(s)
  }

  function L2Index(s: OsReader, p: nat): (i: nat)
    requires Valid(s)
    ensures i < Entries(s)
  {
    ClusterNumber(s, p) % Entries(s)
  }

  function InCluster(s: OsReader, p: nat): (b: nat)
    requires Valid(s)
    ensures b < s.clusterSize
  {
    p % s.clusterSize
  }

  function Min(a: nat, b: nat): nat {
    if a <= b then a else b
  }

  /** The L2 table at `offset`, or the empty table a failed `read_level` becomes
      under `unwrap_or_default`.  Only an offset no file position reaches fails;
      a table past the end of the host is a full table of unallocated entries. */
  function LoadTable(host: seq<byte>, clusterBits: nat, offset: nat): (t: seq<Level>)
    requires clusterBits < 31
    ensures CanSeek(offset) ==> |t| == Pow2(clusterBits) / 8
    ensures !CanSeek(offset) ==> t == []
  {
    ReadLevel(host, clusterBits, offset).GetOr([])
  }

  lemma {:induction false} Pow2AtLeast8(k: nat)
    ensures k >= 3 <==> Pow2(k) >= 8
  {
    if k > 3 {
      Pow2AtLeast8(k - 1);
    } else if k > 0 {
      assert Pow2(k - 1) < 8 by {
        Pow2AtLeast8(k - 1);
      }
      assert Pow2(0) == 1;
    }
  }

  /** `QcowInfo::new`: start at position 0 with keys 0, caching L1 entry 0, the
      L2 table it points to and that table's entry 0, and a zero cluster.  An
      empty L1 table and an empty L2 table (a cluster of under 8 bytes) are
      `Level` errors; a failed `read_level` is propagated.  `read_level` shifts
      an `i32`, so the cluster bits must stay below 31. */
  function New(info: QcowInfo, host: seq<byte>): (r: Result<OsReader, CalfError>)
    requires info.header.clusterBits < 31
    ensures r.Ok? <==> |info.level1Table| > 0 && CanSeek(info.level1Table[0].offset)
                       && info.header.clusterBits >= 3
    ensures r.Err? ==> r.error == (if |info.level1Table| == 0 then CalfError.Level
                                   else if !CanSeek(info.level1Table[0].offset) then SeekFile
                                   else CalfError.Level)
    ensures r.Ok? ==> Valid(r.value) && Coherent(info, host, r.value)
    ensures r.Ok? ==> r.value.position == 0 && r.value.clusterBits == info.header.clusterBits
                      && r.value.osSize == info.header.size
                      && r.value.clusterBytes == Zeros(Pow2(info.header.clusterBits))
  {
    Pow2AtLeast8(info.header.clusterBits);
    if |info.level1Table| == 0 then Err(CalfError.Level)
    else
      var bits := info.header.clusterBits;
      var level1 := info.level1Table[0];
      match ReadLevel(host, bits, level1.offset)
      case Err(e) => Err(e)
      case Ok(table) =>
        if |table| == 0 then Err(CalfError.Level)
        else
          Ok(OsReader(0, bits, Pow2(bits), info.header.size, 0, level1, table, table[0], Zeros(Pow2(bits)), 0))
  }

  /** The caches agree with the keys: the L1 key is the L2 key's table number
      and names an existing L1 entry, the cached L1 entry and L2 table are that
      entry and the table it points to, and the cached L2 entry is the keyed one
      whenever the code would have loaded it. */
  predicate Coherent(info: QcowInfo, host: seq<byte>, s: OsReader)
    requires Valid(s)
  {
    var e := Entries(s);
    && s.level1Key == s.level2Key / e
    && s.level1Key < |info.level1Table|
    && s.level1Cache == info.level1Table[s.level1Key]
    && s.level2TableCache == LoadTable(host, s.clusterBits, s.level1Cache.offset)
    && (s.level1Cache.offset != 0 && s.level2Key % e < |s.level2TableCache| ==>
          s.level2Cache == s.level2TableCache[s.level2Key % e])
  }

  /** Reference translation of the cluster holding guest position `p` to the
      host offset of its first byte, straight from the tables: nothing when the
      L1 index is out of range, the L1 entry is unallocated or its L2 table
      cannot be read or lacks the index. */
  function ClusterOffset(info: QcowInfo, host: seq<byte>, s: OsReader, p: nat): Option<nat>
    requires Valid(s)
  {
    var i1 := L1Index(s, p);
    if i1 >= |info.level1Table| || info.level1Table[i1].offset == 0 then Nothing
    else
      var table := LoadTable(host, s.clusterBits, info.level1Table[i1].offset);
      var i2 := L2Index(s, p);
      if i2 >= |table| then Nothing else Some(table[i2].offset)
  }

  /** Reference translation of guest position `p` to a host offset. */
  function Translate(info: QcowInfo, host: seq<byte>, s: OsReader, p: nat): Option<nat>
    requires Valid(s)
  {
    match ClusterOffset(info, host, s, p)
    case Nothing => Nothing
    case Some(base) => Some(base + InCluster(s, p))
  }

  /** `refresh_level1_cache`: when the L1 key of the position differs from the
      cached one, record the new key first, then look the entry up (an index
      past the table is `UnexpectedEof`, with the old entry and table kept) and
      load its L2 table. */
  function RefreshLevel1(info: QcowInfo, host: seq<byte>, s: OsReader): (r: (Outcome<IoError>, OsReader))
    requires Valid(s)
    ensures Valid(r.1) && SameShape(r.1, s)
    ensures r.1.position == s.position && r.1.clusterBytes == s.clusterBytes
    ensures r.1.level2Key == s.level2Key && r.1.level2Cache == s.level2Cache
    ensures r.1.level1Key == L1Index(s, s.position)
    ensures r.0.Fail? <==> s.level1Key != r.1.level1Key && r.1.level1Key >= |info.level1Table|
    ensures r.0.Fail? ==> r.0.error == UnexpectedEof
    ensures s.level1Key == r.1.level1Key || r.0.Fail? ==>
              r.1.level1Cache == s.level1Cache && r.1.level2TableCache == s.level2TableCache
    ensures r.0.Pass? && s.level1Key != r.1.level1Key ==>
              && r.1.level1Cache == info.level1Table[r.1.level1Key]
              && r.1.level2TableCache == LoadTable(host, s.clusterBits, r.1.level1Cache.offset)
  {
    var key := L1Index(s, s.position);
    if s.level1Key == key then (Pass, s)
    else
      var s1 := s.(level1Key := key);
      if key >= |info.level1Table| then (Fail(UnexpectedEof), s1)
      else
        var level1 := info.level1Table[key];
        (Pass, s1.(level1Cache := level1, level2TableCache := LoadTable(host, s.clusterBits, level1.offset)))
  }

  /** The key and L1/L2 cache update of `refresh_level2_cache`, before the
      cluster is read: when the position's L2 key differs from the cached one,
      record it, refresh the L1 cache (its error ends the refresh) and take the
      new L2 entry if the L1 entry is allocated and the table has that index. */
  function UpdateKeys(info: QcowInfo, host: seq<byte>, s: OsReader): (r: (Outcome<IoError>, OsReader))
    requires Valid(s)
    ensures Valid(r.1) && SameShape(r.1, s) && r.1.position == s.position && r.1.clusterBytes == s.clusterBytes
    ensures r.1.level2Key == ClusterNumber(s, s.position)
    ensures r.0.Fail? ==> r.0.error == UnexpectedEof
  {
    var key := ClusterNumber(s, s.position);
    var index := L2Index(s, s.position);
    if s.level2Key == key then (Pass, s)
    else
      var refreshed := RefreshLevel1(info, host, s.(level2Key := key));
      var s1 := refreshed.1;
      if refreshed.0.Fail? then refreshed
      else if s1.level1Cache.offset != 0 && index < |s1.level2TableCache| then
        (Pass, s1.(level2Cache := s1.level2TableCache[index]))
      else (Pass, s1)
  }

  /** `refresh_level2_cache`: update the keys and caches, fail with `NotFound`
      when the cached L1 entry is unallocated, then re-read the cluster the
      cached L2 entry points to. */
  function RefreshLevel2(info: QcowInfo, host: seq<byte>, s: OsReader): (r: (Outcome<IoError>, OsReader))
    requires Valid(s)
    ensures Valid(r.1) && SameShape(r.1, s) && r.1.position == s.position
    ensures r.1.level2Key == ClusterNumber(s, s.position)
    ensures r.0.Fail? ==> r.0.error in {UnexpectedEof, NotFound}
    ensures r.0.Pass? ==> r.1.level1Cache.offset != 0
                          && r.1.level2Cache.offset + r.1.clusterSize <= |host|
                          && r.1.clusterBytes == host[r.1.level2Cache.offset..r.1.level2Cache.offset + r.1.clusterSize]
  {
    var updated := UpdateKeys(info, host, s);
    var s1 := updated.1;
    if updated.0.Fail? then updated
    else if s1.level1Cache.offset == 0 then (Fail(NotFound), s1)
    else
      match ReadCluster(host, s1.level2Cache.offset, s1.clusterSize,
                        info.header.compressionMethod, s1.level2Cache.isCompressed)
      case Err(e) => (Fail(e), s1)
      case Ok(bytes) => (Pass, s1.(clusterBytes := bytes))
  }

  /** What is left of the cached cluster from the position on, at most `n`
      bytes: what `read` copies after a successful refresh. */
  function ClusterSlice(s: OsReader, n: nat): (d: seq<byte>)
    requires Valid(s)
    ensures |d| <= n && |d| <= s.clusterSize - InCluster(s, s.position)
  {
    var inCluster := InCluster(s, s.position);
    s.clusterBytes[inCluster..inCluster + Min(s.clusterSize - inCluster, n)]
  }

  /** The bytes `Read::read` returns into a buffer of `n` bytes.  After a
      successful refresh it copies from the cached cluster.  After a failed
      refresh it reads the host directly at the guest position, and reports the
      refresh error only when that seek fails. */
  function ReadData(info: QcowInfo, host: seq<byte>, s: OsReader, n: nat): (r: Result<seq<byte>, IoError>)
    requires Valid(s)
    ensures r.Ok? ==> |r.value| <= n
    ensures r.Err? ==> r.error in {UnexpectedEof, NotFound} && !CanSeek(s.position)
  {
    var refreshed := RefreshLevel2(info, host, s);
    if refreshed.0.Pass? then Ok(ClusterSlice(refreshed.1, n))
    else if !CanSeek(s.position) then Err(refreshed.0.error)
    else Ok(HostRead(host, s.position, n))
  }

  /** The reader `Read::read` leaves behind: the refreshed state, moved on by the
      bytes returned, and after a copy from the cluster refreshed once more for
      the new position (that outcome is ignored, its state kept). */
  function ReadState(info: QcowInfo, host: seq<byte>, s: OsReader, n: nat): (t: OsReader)
    requires Valid(s)
    ensures Valid(t) && SameShape(t, s)
  {
    var refreshed := RefreshLevel2(info, host, s);
    var s1 := refreshed.1;
    if refreshed.0.Pass? then
      RefreshLevel2(info, host, s1.(position := (s1.position + |ClusterSlice(s1, n)|) % U64)).1
    else if !CanSeek(s1.position) then s1
    else s1.(position := (s1.position + |HostRead(host, s1.position, n)|) % U64)
  }

  /** `Read::read`: the bytes returned and the reader left behind.  A successful
      read moves the position on by exactly the bytes returned (wrapping as a
      `u64`); a failed one leaves it where it was. */
  function Read(info: QcowInfo, host: seq<byte>, s: OsReader, n: nat): (r: (Result<seq<byte>, IoError>, OsReader))
    requires Valid(s)
    ensures Valid(r.1) && SameShape(r.1, s)
    ensures r.0.Ok? ==> |r.0.value| <= n && r.1.position == (s.position + |r.0.value|) % U64
    ensures r.0.Err? ==> r.1.position == s.position && r.0.error in {UnexpectedEof, NotFound}
  {
    (ReadData(info, host, s, n), ReadState(info, host, s, n))
  }

  datatype SeekFrom = Start(offset: u64) | End(delta: i64) | Current(delta: i64)

  const I64Half: int := 0x8000_0000_0000_0000

  /** Two's-complement wrap of an integer to `i64`, as `as i64` and a release
      build's overflowing `i64` addition do. */
  function WrapI64(x: int): (r: i64)
    ensures (x - r) % U64 == 0
    ensures -I64Half <= x < I64Half ==> r == x
  {
    (x + I64Half) % U64 - I64Half
  }

  /** `Seek::seek`: `Start` sets the position; `End` and `Current` add an `i64`
      to the guest size or the position (each wrapped to `i64`), and a negative
      result is `InvalidInput` with the state unchanged.  No cache is touched. */
  function Seek(s: OsReader, from: SeekFrom): (r: (Result<u64, IoError>, OsReader))
    ensures r.0.Ok? ==> r.1 == s.(position := r.0.value)
    ensures r.0.Err? ==> r.0.error == InvalidInput && r.1 == s
    ensures from.Start? ==> r.0 == Ok(from.offset)
  {
    var target: int :=
      match from
      case Start(p) => p
      case End(e) => WrapI64(e + WrapI64(s.osSize))
      case Current(c) => WrapI64(WrapI64(s.position) + c);
    if target < 0 then (Err(InvalidInput), s)
    else (Ok(target), s.(position := target))
  }
}
