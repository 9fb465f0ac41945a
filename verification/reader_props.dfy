/** Properties of the guest reader: how positions decompose, what a read
    returns in terms of the reference translation, which reads fall back to the
    raw host, and the seek arithmetic. */
module ReaderProperties {

  import opened Bytes
  import opened Results
  import opened HostFile
  import opened Levels
  import opened Calf
  import opened Reader

  /** `x = q * d + r` with `0 <= r < d` fixes the quotient and remainder. */
  lemma DivModUnique(x: nat, d: nat, q: nat, r: nat)
    requires d > 0 && r < d && x == q * d + r
    ensures x / d == q && x % d == r
  {
    var q0, r0 := x / d, x % d;
    assert q0 * d + r0 == q * d + r;
    if q0 > q {
      MulLe(q + 1, q0, d);
      assert false;
    } else if q0 < q {
      MulLe(q0 + 1, q, d);
      assert false;
    }
  }

  lemma MulLe(a: nat, b: nat, d: nat)
    requires a <= b
    ensures a * d <= b * d
  {
    assert b * d == a * d + (b - a) * d;
  }

  /** A guest position is its L1 index, L2 index and byte in the cluster, placed
      back together. */
  lemma IndexDecomposition(s: OsReader, p: nat)
    requires Valid(s)
    ensures p == (L1Index(s, p) * Entries(s) + L2Index(s, p)) * s.clusterSize + InCluster(s, p)
  {
    var c := p / s.clusterSize;
    assert p == c * s.clusterSize + p % s.clusterSize;
    assert c == (c / Entries(s)) * Entries(s) + c % Entries(s);
  }

  /** Conversely, any L1 index, in-range L2 index and in-cluster byte name exactly
      one position, which decomposes back into them. */
  lemma IndexComposition(s: OsReader, i1: nat, i2: nat, b: nat)
    requires Valid(s) && i2 < Entries(s) && b < s.clusterSize
    ensures var p := (i1 * Entries(s) + i2) * s.clusterSize + b;
      L1Index(s, p) == i1 && L2Index(s, p) == i2 && InCluster(s, p) == b
  {
    var c := i1 * Entries(s) + i2;
    var p := c * s.clusterSize + b;
    DivModUnique(p, s.clusterSize, c, b);
    DivModUnique(c, Entries(s), i1, i2);
  }

  /** Reading from a coherent reader at a position that translates to `phys`,
      with the whole mapped cluster inside the host, returns the host bytes at
      `phys`: the rest of the cluster, or `n` bytes if fewer are asked for. */
  lemma ReadTranslates(info: QcowInfo, host: seq<byte>, s: OsReader, n: nat, phys: nat)
    requires Valid(s) && Coherent(info, host, s)
    requires Translate(info, host, s, s.position) == Some(phys)
    requires phys - InCluster(s, s.position) + s.clusterSize <= |host|
    ensures var len := Min(s.clusterSize - InCluster(s, s.position), n);
      ReadData(info, host, s, n) == Ok(host[phys..phys + len])
  {
    var base := ClusterOffset(info, host, s, s.position).value;
    assert phys == base + InCluster(s, s.position);
    RefreshTranslates(info, host, s);
    ReadFromLoadedCluster(info, host, s, n, base, phys);
  }

  /** When the refresh loads the host cluster at `base`, `read` returns the host
      bytes from `phys`, which is `base` plus the position's offset in the
      cluster. */
  lemma ReadFromLoadedCluster(info: QcowInfo, host: seq<byte>, s: OsReader, n: nat, base: nat, phys: nat)
    requires Valid(s) && base + s.clusterSize <= |host|
    requires phys == base + InCluster(s, s.position)
    requires RefreshLevel2(info, host, s).0.Pass?
    requires RefreshLevel2(info, host, s).1.clusterBytes == host[base..base + s.clusterSize]
    ensures var len := Min(s.clusterSize - InCluster(s, s.position), n);
      phys + len <= |host| && ReadData(info, host, s, n) == Ok(host[phys..phys + len])
  {
    var b := InCluster(s, s.position);
    var len := Min(s.clusterSize - b, n);
    var t := RefreshLevel2(info, host, s).1;
    assert ClusterSlice(t, n) == t.clusterBytes[b..b + len];
    SubSlice(host, base, base + s.clusterSize, b, b + len);
  }

  /** The refresh at a translated position loads the translated cluster. */
  lemma RefreshTranslates(info: QcowInfo, host: seq<byte>, s: OsReader)
    requires Valid(s) && Coherent(info, host, s)
    requires ClusterOffset(info, host, s, s.position).Some?
    requires ClusterOffset(info, host, s, s.position).value + s.clusterSize <= |host|
    ensures var base := ClusterOffset(info, host, s, s.position).value;
      var r := RefreshLevel2(info, host, s);
      r.0.Pass? && r.1.level2Cache.offset == base && r.1.clusterBytes == host[base..base + s.clusterSize]
  {
    var i1 := L1Index(s, s.position);
    var table := LoadTable(host, s.clusterBits, info.level1Table[i1].offset);
    var k := UpdateKeys(info, host, s).1;
    UpdateKeysCoherent(info, host, s);
    ReadLevelOffsets(host, s.clusterBits, info.level1Table[i1].offset, L2Index(s, s.position));
    assert k.level1Cache == info.level1Table[i1];
    assert k.level2Cache == table[L2Index(s, s.position)];
    RefreshLoads(info, host, s);
  }

  /** Once the keys are updated to an allocated L1 entry and an L2 entry whose
      cluster lies in the host, the refresh loads that cluster. */
  lemma RefreshLoads(info: QcowInfo, host: seq<byte>, s: OsReader)
    requires Valid(s)
    requires var (o, k) := UpdateKeys(info, host, s);
      && o.Pass? && k.level1Cache.offset != 0
      && CanSeek(k.level2Cache.offset) && k.level2Cache.offset + k.clusterSize <= |host|
    ensures var k := UpdateKeys(info, host, s).1;
      RefreshLevel2(info, host, s)
        == (Pass, k.(clusterBytes := host[k.level2Cache.offset..k.level2Cache.offset + k.clusterSize]))
  {
  }

  /** With the position's L1 index in range, updating the keys of a coherent
      reader caches the translated L1 entry, its table and (when the L1 entry is
      allocated and the index exists) the translated L2 entry, and stays
      coherent. */
  lemma UpdateKeysCoherent(info: QcowInfo, host: seq<byte>, s: OsReader)
    requires Valid(s) && Coherent(info, host, s)
    requires L1Index(s, s.position) < |info.level1Table|
    ensures var (o, k) := UpdateKeys(info, host, s);
      && o.Pass?
      && Coherent(info, host, k)
      && k.level1Key == L1Index(s, s.position)
      && k.level2Key == s.position / s.clusterSize
      && k.level1Cache == info.level1Table[L1Index(s, s.position)]
      && k.level2TableCache == LoadTable(host, s.clusterBits, k.level1Cache.offset)
      && (k.level1Cache.offset != 0 && L2Index(s, s.position) < |k.level2TableCache| ==>
            k.level2Cache == k.level2TableCache[L2Index(s, s.position)])
  {
    var key := s.position / s.clusterSize;
    if s.level2Key != key {
      var (o1, s1) := RefreshLevel1(info, host, s.(level2Key := key));
      assert s1.level1Key == key / Entries(s);
    }
  }

  /** A refresh at a position whose L1 index is in range keeps a coherent reader
      coherent. */
  lemma RefreshKeepsCoherent(info: QcowInfo, host: seq<byte>, s: OsReader)
    requires Valid(s) && Coherent(info, host, s)
    requires L1Index(s, s.position) < |info.level1Table|
    ensures Coherent(info, host, RefreshLevel2(info, host, s).1)
  {
    UpdateKeysCoherent(info, host, s);
  }

  /** Coherence does not depend on the position. */
  lemma CoherentAnyPosition(info: QcowInfo, host: seq<byte>, s: OsReader, p: u64)
    requires Valid(s) && Coherent(info, host, s)
    ensures Valid(s.(position := p)) && Coherent(info, host, s.(position := p))
  {
  }

  /** Moving a coherent reader to `p` and refreshing keeps it coherent when the
      refreshed position has its L1 index in range. */
  lemma AdvanceKeepsCoherent(info: QcowInfo, host: seq<byte>, s: OsReader, p: u64)
    requires Valid(s) && Coherent(info, host, s)
    ensures var t := RefreshLevel2(info, host, s.(position := p)).1;
      L1Index(t, t.position) < |info.level1Table| ==> Coherent(info, host, t)
  {
    var s2 := s.(position := p);
    CoherentAnyPosition(info, host, s, p);
    if L1Index(s2, p) < |info.level1Table| {
      RefreshKeepsCoherent(info, host, s2);
    }
  }

  /** A coherent reader at a position whose L1 entry is unallocated fails the
      refresh with `NotFound` and reads the host directly at the guest position:
      the guest position is used as a host offset. */
  lemma UnallocatedReadsHost(info: QcowInfo, host: seq<byte>, s: OsReader, n: nat)
    requires Valid(s) && Coherent(info, host, s)
    requires L1Index(s, s.position) < |info.level1Table|
    requires info.level1Table[L1Index(s, s.position)].offset == 0
    ensures Translate(info, host, s, s.position) == Nothing
    ensures ReadData(info, host, s, n) ==
      if CanSeek(s.position) then Ok(HostRead(host, s.position, n)) else Err(NotFound)
  {
    UpdateKeysCoherent(info, host, s);
  }

  /** A coherent reader at a position past the end of the L1 table records the
      new keys, keeps its old L1 entry, L2 table and L2 entry, fails the refresh
      with `UnexpectedEof`, and reads the host directly at the guest position. */
  lemma PastTableFallsBack(info: QcowInfo, host: seq<byte>, s: OsReader, n: nat)
    requires Valid(s) && Coherent(info, host, s)
    requires L1Index(s, s.position) >= |info.level1Table|
    ensures Translate(info, host, s, s.position) == Nothing
    ensures RefreshLevel2(info, host, s) ==
      (Fail(UnexpectedEof), s.(level1Key := L1Index(s, s.position), level2Key := s.position / s.clusterSize))
    ensures ReadData(info, host, s, n) ==
      if CanSeek(s.position) then Ok(HostRead(host, s.position, n)) else Err(UnexpectedEof)
  {
    assert s.level2Key != s.position / s.clusterSize;
  }

  /** A coherent reader whose position has no L1 entry, or an unallocated one,
      and lies past the end of the host but below 2^63 reads nothing: the
      fallback seek succeeds, the read returns no bytes and the position stays. */
  lemma PastHostReadsNothing(info: QcowInfo, host: seq<byte>, s: OsReader, n: nat)
    requires Valid(s) && Coherent(info, host, s)
    requires L1Index(s, s.position) >= |info.level1Table| || info.level1Table[L1Index(s, s.position)].offset == 0
    requires |host| <= s.position < SeekLimit
    ensures Read(info, host, s, n).0 == Ok([])
    ensures Read(info, host, s, n).1.position == s.position
  {
    PastHostReadData(info, host, s, n);
    EmptyReadStays(info, host, s, n);
    assert Read(info, host, s, n).0 == ReadData(info, host, s, n);
  }

  /** A read that returns no bytes leaves the position where it was. */
  lemma EmptyReadStays(info: QcowInfo, host: seq<byte>, s: OsReader, n: nat)
    requires Valid(s) && ReadData(info, host, s, n) == Ok([])
    ensures Read(info, host, s, n).1.position == s.position
  {
    var r := Read(info, host, s, n);
    assert r.0.Ok? && |r.0.value| == 0;
    assert r.1.position == s.position % U64;
  }

  /** The bytes half of `PastHostReadsNothing`. */
  lemma PastHostReadData(info: QcowInfo, host: seq<byte>, s: OsReader, n: nat)
    requires Valid(s) && Coherent(info, host, s)
    requires L1Index(s, s.position) >= |info.level1Table| || info.level1Table[L1Index(s, s.position)].offset == 0
    requires |host| <= s.position < SeekLimit
    ensures ReadData(info, host, s, n) == Ok([])
  {
    if L1Index(s, s.position) >= |info.level1Table| {
      PastTableFallsBack(info, host, s, n);
    } else {
      UnallocatedReadsHost(info, host, s, n);
    }
  }

  /** After a lookup past the end of the L1 table (the reader `PastTableFallsBack`
      leaves), a position in another cluster with the same out-of-range L1 index
      is served from the stale L2 table: the refresh succeeds and loads the
      cluster the old table names, although the position has no translation. */
  lemma StaleTableServesPastEnd(info: QcowInfo, host: seq<byte>, s: OsReader, p2: u64)
    requires Valid(s) && Coherent(info, host, s)
    requires L1Index(s, s.position) >= |info.level1Table|
    requires L1Index(s, p2) == L1Index(s, s.position) && p2 / s.clusterSize != s.position / s.clusterSize
    requires s.level1Cache.offset != 0 && L2Index(s, p2) < |s.level2TableCache|
    requires s.level2TableCache[L2Index(s, p2)].offset + s.clusterSize <= |host|
    ensures Translate(info, host, s, p2) == Nothing
    ensures var t := s.(position := p2, level1Key := L1Index(s, s.position), level2Key := s.position / s.clusterSize);
      var stale := s.level2TableCache[L2Index(s, p2)].offset;
      RefreshLevel2(info, host, t) ==
        (Pass, t.(level2Key := p2 / s.clusterSize, level2Cache := s.level2TableCache[L2Index(s, p2)],
                  clusterBytes := host[stale..stale + s.clusterSize]))
  {
    ReadLevelOffsets(host, s.clusterBits, s.level1Cache.offset, L2Index(s, p2));
    StaleRefresh(info, host, s, p2);
  }

  /** The cached L2 table of a coherent reader has an entry for every L2 index
      whenever its L1 entry's offset is seekable, and so for every L1 entry a
      table word decodes to, wherever the host ends. */
  lemma CachedTableFull(info: QcowInfo, host: seq<byte>, s: OsReader, p: nat)
    requires Valid(s) && Coherent(info, host, s)
    requires CanSeek(s.level1Cache.offset)
    ensures |s.level2TableCache| == Entries(s) && L2Index(s, p) < |s.level2TableCache|
  {
  }

  /** The refresh half of `StaleTableServesPastEnd`, from the cached L2 table
      alone. */
  lemma StaleRefresh(info: QcowInfo, host: seq<byte>, s: OsReader, p2: u64)
    requires Valid(s)
    requires L1Index(s, p2) == L1Index(s, s.position) && p2 / s.clusterSize != s.position / s.clusterSize
    requires s.level1Cache.offset != 0 && L2Index(s, p2) < |s.level2TableCache|
    requires CanSeek(s.level2TableCache[L2Index(s, p2)].offset)
    requires s.level2TableCache[L2Index(s, p2)].offset + s.clusterSize <= |host|
    ensures var t := s.(position := p2, level1Key := L1Index(s, s.position), level2Key := s.position / s.clusterSize);
      var stale := s.level2TableCache[L2Index(s, p2)].offset;
      RefreshLevel2(info, host, t) ==
        (Pass, t.(level2Key := p2 / s.clusterSize, level2Cache := s.level2TableCache[L2Index(s, p2)],
                  clusterBytes := host[stale..stale + s.clusterSize]))
  {
    var t := s.(position := p2, level1Key := L1Index(s, s.position), level2Key := s.position / s.clusterSize);
    SameTableUpdate(info, host, t);
  }

  /** Moving to another cluster under the cached L1 key keeps the cached L1 entry
      and L2 table, and takes the new L2 entry from that table when it is
      allocated and has the index. */
  lemma SameTableUpdate(info: QcowInfo, host: seq<byte>, s: OsReader)
    requires Valid(s)
    requires s.level2Key != ClusterNumber(s, s.position) && s.level1Key == L1Index(s, s.position)
    ensures var i := L2Index(s, s.position);
      UpdateKeys(info, host, s) ==
        (Pass, s.(level2Key := ClusterNumber(s, s.position),
                  level2Cache := if s.level1Cache.offset != 0 && i < |s.level2TableCache|
                                 then s.level2TableCache[i] else s.level2Cache))
  {
  }

  /** A seek from the current position by `delta`, for a position and target
      that fit in an `i64`, lands exactly on `position + delta`. */
  lemma SeekCurrentExact(s: OsReader, delta: i64)
    requires s.position < I64Half && 0 <= s.position + delta < I64Half
    ensures Seek(s, Current(delta)) == (Ok(s.position + delta), s.(position := s.position + delta))
  {
  }

  /** Seeking by `delta` and back by `-delta` returns to the same reader. */
  lemma SeekCurrentRoundTrip(s: OsReader, delta: i64)
    requires s.position < I64Half && 0 <= s.position + delta < I64Half && delta > -I64Half
    ensures var t := Seek(s, Current(delta)).1;
      Seek(t, Current(-delta)) == (Ok(s.position), s)
  {
    SeekCurrentExact(s, delta);
    var t := s.(position := s.position + delta);
    SeekCurrentExact(t, -delta);
  }

  /** A seek before the start of the guest disk is `InvalidInput` and changes
      nothing. */
  lemma SeekBeforeStartFails(s: OsReader, delta: i64)
    requires s.position < I64Half && -I64Half <= s.position + delta < 0
    ensures Seek(s, Current(delta)) == (Err(InvalidInput), s)
  {
  }

  /** From a position above `i64::MAX`, even `Current(0)` fails: the position is
      reinterpreted as a negative `i64`. */
  lemma SeekFromHighPositionFails(s: OsReader)
    requires s.position >= I64Half
    ensures Seek(s, Current(0)) == (Err(InvalidInput), s)
  {
    assert WrapI64(s.position) == s.position - U64;
  }

  /** A seek from the end by `delta`, for a guest size and target that fit in an
      `i64`, lands on `osSize + delta`; a target before the start fails. */
  lemma SeekEndExact(s: OsReader, delta: i64)
    requires s.osSize < I64Half && -I64Half <= s.osSize + delta < I64Half
    ensures s.osSize + delta >= 0 ==>
      Seek(s, End(delta)) == (Ok(s.osSize + delta), s.(position := s.osSize + delta))
    ensures s.osSize + delta < 0 ==> Seek(s, End(delta)) == (Err(InvalidInput), s)
  {
  }
}
