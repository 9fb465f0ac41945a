/** `boot_info` (src/bootsector/boot.rs): read the Master Boot Record at guest
    offset 0 through the guest reader, then follow every extended partition's
    chain of extended boot records and append the entries found there.

    The chain is a linked list on the guest disk that the source follows with
    `while has_extended`; nothing bounds it there.  Here each chain is followed
    for at most `fuel` rounds, and running out is reported as `OutOfFuel`. */
module Boot {

  import opened Bytes
  import opened Results
  import opened Calf
  import opened Reader
  import opened Partitions
  import Mbr

  /** Why the walk stopped without a result: an error of the crate, or the
      bound on the rounds of one chain. */
  datatype Stop = Error(error: CalfError) | OutOfFuel

  /** One sector as `boot_info` reads it: seek to `offset`, then a single `read`
      into a zero-filled 512-byte buffer, which keeps its zeros past the bytes
      that read returns.  A failed seek is `seekError`, a failed read
      `ReadFile`; as a seek from the start always succeeds, only `ReadFile`
      can arise. */
  function SectorAt(info: QcowInfo, host: seq<byte>, s: OsReader, offset: u64, seekError: CalfError)
    : (r: (Result<seq<byte>, CalfError>, OsReader))
    requires Valid(s)
    ensures Valid(r.1) && SameShape(r.1, s)
    ensures r.0.Ok? ==> |r.0.value| == Mbr.SectorSize
    ensures r.0.Err? ==> r.0.error == ReadFile
  {
    var (sought, s1) := Seek(s, Start(offset));
    if sought.Err? then (Err(seekError), s1)
    else
      var (got, s2) := Read(info, host, s1, Mbr.SectorSize);
      if got.Err? then (Err(ReadFile), s2)
      else (Ok(got.value + Zeros(Mbr.SectorSize - |got.value|)), s2)
  }

  /** The sector holds what one read of 512 bytes at `offset` returns, then
      zeros; it fails exactly when that read fails. */
  lemma SectorContents(info: QcowInfo, host: seq<byte>, s: OsReader, offset: u64, seekError: CalfError)
    requires Valid(s)
    ensures var got := Read(info, host, s.(position := offset), Mbr.SectorSize).0;
      var r := SectorAt(info, host, s, offset, seekError).0;
      && (r.Ok? <==> got.Ok?)
      && (r.Ok? ==> r.value[..|got.value|] == got.value
                    && forall i :: |got.value| <= i < Mbr.SectorSize ==> r.value[i] == 0)
  {
    var got := Read(info, host, s.(position := offset), Mbr.SectorSize).0;
    if got.Ok? {
      var z := Zeros(Mbr.SectorSize - |got.value|);
      assert (got.value + z)[..|got.value|] == got.value;
    }
  }

  /** `b` is `a` followed by whole pairs of entries: every extended boot
      record contributes two. */
  predicate Grows(a: seq<Partition>, b: seq<Partition>) {
    |a| <= |b| && b[..|a|] == a && |b| % 2 == |a| % 2
  }

  /** An even number of entries: whole records' worth. */
  predicate Paired(ps: seq<Partition>) {
    |ps| % 2 == 0
  }

  lemma PairedConcat(a: seq<Partition>, b: seq<Partition>)
    requires Paired(a) && Paired(b)
    ensures Paired(a + b)
  {
  }

  lemma GrowsByPair(a: seq<Partition>, p: seq<Partition>)
    requires |p| == 2
    ensures Grows(a, a + p)
  {
    assert (a + p)[..|a|] == a;
  }

  lemma GrowsTrans(a: seq<Partition>, b: seq<Partition>, c: seq<Partition>)
    requires Grows(a, b) && Grows(b, c)
    ensures Grows(a, c)
  {
    assert c[..|b|][..|a|] == c[..|a|];
  }

  /** What one round of the chain walk has gathered: whether the chain goes
      on, the entries to follow in the next round, and the entries found. */
  datatype Round = Round(more: bool, next: seq<Partition>, found: seq<Partition>)

  /** The `for entry in &ext_boot` loop of one round, from accumulator `acc`:
      each extended entry names the next record, which is read at its offset
      and parsed with the chain's root offset and that offset.  The record's
      two entries are always found, and are followed next round only when the
      record says the chain goes on; the flag is the last record's. */
  function FollowLinks(info: QcowInfo, host: seq<byte>, s: OsReader, rootOffset: u64,
                       links: seq<Partition>, acc: Round)
    : (r: (Result<Round, CalfError>, OsReader))
    requires Valid(s)
    ensures Valid(r.1) && SameShape(r.1, s)
    ensures r.0.Err? ==> r.0.error == ReadFile
    ensures r.0.Ok? ==> Grows(acc.found, r.0.value.found) && Grows(acc.next, r.0.value.next)
    decreases |links|
  {
    if links == [] then (Ok(acc), s)
    else if links[0].partitionType != Extended then
      FollowLinks(info, host, s, rootOffset, links[1..], acc)
    else
      var (sector, s1) := SectorAt(info, host, s, links[0].offsetStart, ExtendedPartition);
      if sector.Err? then (Err(sector.error), s1)
      else
        var parsed := Mbr.ParseExtended(sector.value, rootOffset, links[0].offsetStart);
        if parsed.Failed? then (Err(ExtendedPartition), s1)
        else
          var (parts, more) := parsed.value;
          var acc' := Round(more, if more then acc.next + parts else acc.next, acc.found + parts);
          var r := FollowLinks(info, host, s1, rootOffset, links[1..], acc');
          GrowsByPair(acc.found, parts);
          if more then GrowsByPair(acc.next, parts); r else r
  }

  /** The `while has_extended` loop of one chain, for at most `fuel` rounds:
      the entries of every record reached, round by round. */
  function WalkChain(info: QcowInfo, host: seq<byte>, s: OsReader, rootOffset: u64,
                     links: seq<Partition>, more: bool, fuel: nat)
    : (r: (Result<seq<Partition>, Stop>, OsReader))
    requires Valid(s)
    ensures Valid(r.1) && SameShape(r.1, s)
    ensures r.0.Err? ==> r.0.error in {Error(ReadFile), OutOfFuel}
    ensures r.0.Ok? ==> Paired(r.0.value)
    decreases fuel
  {
    if !more then (Ok([]), s)
    else if fuel == 0 then (Err(OutOfFuel), s)
    else
      var (round, s1) := FollowLinks(info, host, s, rootOffset, links, Round(false, [], []));
      if round.Err? then (Err(Error(round.error)), s1)
      else
        var (rest, s2) := WalkChain(info, host, s1, rootOffset, round.value.next, round.value.more, fuel - 1);
        if rest.Err? then (rest, s2)
        else
          PairedConcat(round.value.found, rest.value);
          (Ok(round.value.found + rest.value), s2)
  }

  /** The `for part in &boot.partitions` loop: each extended primary entry is
      the root of a chain; its first record is read at the entry's offset and
      parsed with that offset as both root and record offset, and its chain is
      then walked.  Non-extended entries are skipped. */
  function WalkPrimaries(info: QcowInfo, host: seq<byte>, s: OsReader, primaries: seq<Partition>, fuel: nat)
    : (r: (Result<seq<Partition>, Stop>, OsReader))
    requires Valid(s)
    ensures Valid(r.1) && SameShape(r.1, s)
    ensures r.0.Err? ==> r.0.error in {Error(ReadFile), OutOfFuel}
    ensures r.0.Ok? ==> Paired(r.0.value)
    decreases |primaries|
  {
    if primaries == [] then (Ok([]), s)
    else if primaries[0].partitionType != Extended then
      WalkPrimaries(info, host, s, primaries[1..], fuel)
    else
      var root := primaries[0].offsetStart;
      var (sector, s1) := SectorAt(info, host, s, root, ExtendedPartition);
      if sector.Err? then (Err(Error(sector.error)), s1)
      else
        var parsed := Mbr.ParseExtended(sector.value, root, root);
        if parsed.Failed? then (Err(Error(ExtendedPartition)), s1)
        else
          var (chain, s2) := WalkChain(info, host, s1, root, parsed.value.0, parsed.value.1, fuel);
          if chain.Err? then (chain, s2)
          else
            var (rest, s3) := WalkPrimaries(info, host, s2, primaries[1..], fuel);
            if rest.Err? then (rest, s3)
            else
              PairedConcat(parsed.value.0, chain.value);
              PairedConcat(parsed.value.0 + chain.value, rest.value);
              (Ok(parsed.value.0 + chain.value + rest.value), s3)
  }

  /** `boot_info`: the Master Boot Record read at offset 0, with the entries of
      every extended boot record appended after its four partitions.  The
      seek and parse errors of the source cannot arise: a failure is a failed
      read or an exhausted bound. */
  function GetBootInfo(info: QcowInfo, host: seq<byte>, s: OsReader, fuel: nat)
    : (r: (Result<BootInfo, Stop>, OsReader))
    requires Valid(s)
    ensures Valid(r.1) && SameShape(r.1, s)
    ensures r.0.Err? ==> r.0.error in {Error(ReadFile), OutOfFuel}
    ensures r.0.Ok? ==> |r.0.value.partitions| >= 4 && Paired(r.0.value.partitions[4..])
  {
    var (sector, s1) := SectorAt(info, host, s, 0, SeekFile);
    if sector.Err? then (Err(Error(sector.error)), s1)
    else
      var parsed := Mbr.ParseMbr(sector.value);
      if parsed.Failed? then (Err(Error(CalfError.ParseMbr)), s1)
      else
        var boot := parsed.value;
        var (extra, s2) := WalkPrimaries(info, host, s1, boot.partitions, fuel);
        if extra.Err? then (Err(extra.error), s2)
        else
          assert (boot.partitions + extra.value)[4..] == extra.value;
          (Ok(boot.(partitions := boot.partitions + extra.value)), s2)
  }
}
