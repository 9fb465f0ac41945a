/** The boot-sector records the guest disk is described by
    (src/bootsector/boot.rs): the kind of partition table, and one decoded
    partition-table entry.  Offsets and sizes are in bytes; the sector fields
    are as stored. */
module Partitions {

  import opened Bytes

  datatype BootType = MasterBootRecord | GuidPartitionTable

  /** The partition kinds the crate names.  `Fat16` and `ExFat` are declared
      but no type code maps to them. */
  datatype PartitionType =
    | Ntfs
    | Linux
    | Unknown
    | Fat16
    | Fat32
    | ExFat
    | Protective
    | Extended
    | LinuxSwap
    | LinuxLvm
    | None

  /** One partition-table entry.  `offsetStart` is where the partition's data
      begins on the guest disk: `firstLogicalOffset * 512` as decoded, adjusted
      for entries of an extended boot record. */
  datatype Partition = Partition(
    partitionType: PartitionType,
    partitionTypeValue: byte,
    firstSectorOffset: nat,
    lastSectorOffset: nat,
    firstLogicalOffset: nat,
    offsetStart: u64,
    sectorsInPartition: nat,
    partitionSize: nat,
    bootable: bool)

  datatype BootInfo = BootInfo(bootType: BootType, partitions: seq<Partition>)
}
