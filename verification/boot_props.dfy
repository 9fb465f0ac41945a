/** Properties of the boot-sector walk: what the result is made of, when no
    chain is followed, and that the bound on chain rounds only ever cuts a walk
    short. */
module BootProperties {

  import opened Bytes
  import opened Results
  import opened HostFile
  import opened Calf
  import opened Reader
  import ReaderProperties
  import opened Partitions
  import Mbr
  import opened Boot

  /** A round over entries none of which is extended reads nothing and adds
      nothing. */
  lemma {:induction false} FollowLinksSkips(info: QcowInfo, host: seq<byte>, s: OsReader, rootOffset: u64,
                                            links: seq<Partition>, acc: Round)
    requires Valid(s)
    requires forall i :: 0 <= i < |links| ==> links[i].partitionType != Extended
    ensures FollowLinks(info, host, s, rootOffset, links, acc) == (Ok(acc), s)
    decreases |links|
  {
    if links != [] {
      FollowLinksSkips(info, host, s, rootOffset, links[1..], acc);
    }
  }

  /** Primary entries none of which is extended start no chain. */
  lemma {:induction false} WalkPrimariesSkips(info: QcowInfo, host: seq<byte>, s: OsReader,
                                              primaries: seq<Partition>, fuel: nat)
    requires Valid(s)
    requires forall i :: 0 <= i < |primaries| ==> primaries[i].partitionType != Extended
    ensures WalkPrimaries(info, host, s, primaries, fuel) == (Ok([]), s)
    decreases |primaries|
  {
    if primaries != [] {
      WalkPrimariesSkips(info, host, s, primaries[1..], fuel);
    }
  }

  /** One step of a round at an extended entry: a failed sector read ends the
      round with that error; otherwise the record read there is parsed, both of
      its entries are found, they are queued for the next round exactly when the
      record says the chain goes on, the flag becomes the record's, and the
      round carries on from the reader the read left behind. */
  lemma FollowLinksStep(info: QcowInfo, host: seq<byte>, s: OsReader, rootOffset: u64,
                        links: seq<Partition>, acc: Round)
    requires Valid(s) && |links| > 0 && links[0].partitionType == Extended
    ensures var (sector, s1) := SectorAt(info, host, s, links[0].offsetStart, ExtendedPartition);
      var r := FollowLinks(info, host, s, rootOffset, links, acc);
      && (sector.Err? ==> r == (Err(ReadFile), s1))
      && (sector.Ok? ==>
            var parsed := Mbr.ParseExtended(sector.value, rootOffset, links[0].offsetStart);
            && parsed.Done?
            && r == FollowLinks(info, host, s1, rootOffset, links[1..],
                                Round(parsed.value.1,
                                      acc.next + (if parsed.value.1 then parsed.value.0 else []),
                                      acc.found + parsed.value.0)))
  {
    var (sector, s1) := SectorAt(info, host, s, links[0].offsetStart, ExtendedPartition);
    if sector.Ok? {
      assert acc.next + [] == acc.next;
    }
  }

  /** One round of a chain that goes on, with fuel left: the round's failure is
      the walk's; otherwise the walk is the entries the round found followed by
      the walk from the entries it queued, under the round's flag, with one
      round less of fuel. */
  lemma WalkChainStep(info: QcowInfo, host: seq<byte>, s: OsReader, rootOffset: u64,
                      links: seq<Partition>, more: bool, fuel: nat)
    requires Valid(s) && more && fuel > 0
    ensures var (round, s1) := FollowLinks(info, host, s, rootOffset, links, Round(false, [], []));
      var r := WalkChain(info, host, s, rootOffset, links, more, fuel);
      && (round.Err? ==> r == (Err(Error(round.error)), s1))
      && (round.Ok? ==>
            var rest := WalkChain(info, host, s1, rootOffset, round.value.next, round.value.more, fuel - 1);
            r == if rest.0.Ok? then (Ok(round.value.found + rest.0.value), rest.1) else rest)
  {
  }

  /** A sector read at a guest offset past the end of the host (below 2^63),
      where the guest has no L1 entry or an unallocated one, succeeds and holds
      zeros only; the walk goes on from it instead of failing. */
  lemma SectorPastHost(info: QcowInfo, host: seq<byte>, s: OsReader, offset: u64, seekError: CalfError)
    requires Valid(s) && Coherent(info, host, s)
    requires L1Index(s, offset) >= |info.level1Table| || info.level1Table[L1Index(s, offset)].offset == 0
    requires |host| <= offset < SeekLimit
    ensures SectorAt(info, host, s, offset, seekError).0 == Ok(Zeros(Mbr.SectorSize))
  {
    ReaderProperties.CoherentAnyPosition(info, host, s, offset);
    ReaderProperties.PastHostReadsNothing(info, host, s.(position := offset), Mbr.SectorSize);
    assert [] + Zeros(Mbr.SectorSize) == Zeros(Mbr.SectorSize);
  }

  /** The result is the Master Boot Record read at offset 0, its boot type and
      its four partitions first, followed by whole records' worth of entries. */
  lemma BootInfoStartsWithMbr(info: QcowInfo, host: seq<byte>, s: OsReader, fuel: nat)
    requires Valid(s)
    ensures var r := GetBootInfo(info, host, s, fuel).0;
      var sector := SectorAt(info, host, s, 0, SeekFile).0;
      r.Ok? ==> && sector.Ok?
                && var mbr := Mbr.ParseMbr(sector.value).value;
                   r.value.bootType == mbr.bootType && r.value.partitions[..4] == mbr.partitions
  {
    var r := GetBootInfo(info, host, s, fuel).0;
    var sector := SectorAt(info, host, s, 0, SeekFile);
    if r.Ok? {
      var mbr := Mbr.ParseMbr(sector.0.value).value;
      var extra := WalkPrimaries(info, host, sector.1, mbr.partitions, fuel).0;
      assert r.value.partitions == mbr.partitions + extra.value;
      assert (mbr.partitions + extra.value)[..4] == mbr.partitions;
    }
  }

  /** With no extended primary partition, a readable Master Boot Record is the
      whole result, whatever the bound. */
  lemma NoExtendedIsMbr(info: QcowInfo, host: seq<byte>, s: OsReader, fuel: nat)
    requires Valid(s)
    requires var sector := SectorAt(info, host, s, 0, SeekFile).0;
      && sector.Ok?
      && forall i :: 0 <= i < 4 ==> Mbr.ParseMbr(sector.value).value.partitions[i].partitionType != Extended
    ensures GetBootInfo(info, host, s, fuel).0 == Ok(Mbr.ParseMbr(SectorAt(info, host, s, 0, SeekFile).0.value).value)
  {
    var sector := SectorAt(info, host, s, 0, SeekFile);
    var mbr := Mbr.ParseMbr(sector.0.value).value;
    WalkPrimariesSkips(info, host, sector.1, mbr.partitions, fuel);
    assert mbr.partitions + [] == mbr.partitions;
  }

  /** An extended primary entry contributes the two entries of the record at
      its own offset first, parsed with that offset as root and record offset,
      ahead of everything its chain and the later primaries add. */
  lemma WalkPrimariesFirstRecord(info: QcowInfo, host: seq<byte>, s: OsReader,
                                 primaries: seq<Partition>, fuel: nat)
    requires Valid(s) && primaries != [] && primaries[0].partitionType == Extended
    ensures var root := primaries[0].offsetStart;
      var r := WalkPrimaries(info, host, s, primaries, fuel).0;
      var sector := SectorAt(info, host, s, root, ExtendedPartition).0;
      r.Ok? ==> && sector.Ok? && |r.value| >= 2
                && r.value[..2] == Mbr.ParseExtended(sector.value, root, root).value.0
  {
    var root := primaries[0].offsetStart;
    var r := WalkPrimaries(info, host, s, primaries, fuel).0;
    var (sector, s1) := SectorAt(info, host, s, root, ExtendedPartition);
    if r.Ok? {
      var parts := Mbr.ParseExtended(sector.value, root, root).value.0;
      var (chain, s2) := WalkChain(info, host, s1, root, parts, Mbr.ParseExtended(sector.value, root, root).value.1, fuel);
      var rest := WalkPrimaries(info, host, s2, primaries[1..], fuel).0;
      assert r.value == parts + chain.value + rest.value;
      assert (parts + chain.value + rest.value)[..2] == parts;
    }
  }

  /** More rounds change nothing for a chain that ended within `fuel` rounds:
      the bound only cuts a walk short. */
  lemma {:induction false} WalkChainFuel(info: QcowInfo, host: seq<byte>, s: OsReader, rootOffset: u64,
                                         links: seq<Partition>, more: bool, fuel: nat, more_fuel: nat)
    requires Valid(s) && fuel <= more_fuel
    requires WalkChain(info, host, s, rootOffset, links, more, fuel).0 != Err(OutOfFuel)
    ensures WalkChain(info, host, s, rootOffset, links, more, more_fuel)
         == WalkChain(info, host, s, rootOffset, links, more, fuel)
    decreases fuel
  {
    if more && fuel > 0 {
      var (round, s1) := FollowLinks(info, host, s, rootOffset, links, Round(false, [], []));
      if round.Ok? {
        WalkChainFuel(info, host, s1, rootOffset, round.value.next, round.value.more, fuel - 1, more_fuel - 1);
      }
    }
  }

  /** The same for the walk over the primary entries. */
  lemma {:induction false} WalkPrimariesFuel(info: QcowInfo, host: seq<byte>, s: OsReader,
                                             primaries: seq<Partition>, fuel: nat, more_fuel: nat)
    requires Valid(s) && fuel <= more_fuel
    requires WalkPrimaries(info, host, s, primaries, fuel).0 != Err(OutOfFuel)
    ensures WalkPrimaries(info, host, s, primaries, more_fuel) == WalkPrimaries(info, host, s, primaries, fuel)
    decreases |primaries|
  {
    if primaries != [] {
      if primaries[0].partitionType != Extended {
        WalkPrimariesFuel(info, host, s, primaries[1..], fuel, more_fuel);
      } else {
        var root := primaries[0].offsetStart;
        var (sector, s1) := SectorAt(info, host, s, root, ExtendedPartition);
        if sector.Ok? {
          var parsed := Mbr.ParseExtended(sector.value, root, root);
          var chain := WalkChain(info, host, s1, root, parsed.value.0, parsed.value.1, fuel);
          if chain.0 != Err(OutOfFuel) {
            WalkChainFuel(info, host, s1, root, parsed.value.0, parsed.value.1, fuel, more_fuel);
            if chain.0.Ok? {
              WalkPrimariesFuel(info, host, chain.1, primaries[1..], fuel, more_fuel);
            }
          }
        }
      }
    }
  }

  /** The whole walk: a result reached within `fuel` rounds per chain is the
      result for every larger bound. */
  lemma BootInfoFuel(info: QcowInfo, host: seq<byte>, s: OsReader, fuel: nat, more_fuel: nat)
    requires Valid(s) && fuel <= more_fuel
    requires GetBootInfo(info, host, s, fuel).0 != Err(OutOfFuel)
    ensures GetBootInfo(info, host, s, more_fuel) == GetBootInfo(info, host, s, fuel)
  {
    var (sector, s1) := SectorAt(info, host, s, 0, SeekFile);
    if sector.Ok? {
      WalkPrimariesFuel(info, host, s1, Mbr.ParseMbr(sector.value).value.partitions, fuel, more_fuel);
    }
  }
}
