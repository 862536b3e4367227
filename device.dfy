/** The block device the storage layer sits on: fixed-size sectors addressed
    by 32-bit sector numbers. The device itself is external; it is modelled
    as a finite map from sector numbers to sector contents. */
module Device {

  /** One byte of sector data. */
  type byte = x: int | 0 <= x < 256

  /** block_sector_t: an unsigned 32-bit sector number. */
  type Sector = x: int | 0 <= x < 0x1_0000_0000

  /** BLOCK_SECTOR_SIZE. */
  const BlockSectorSize: nat := 512

  /** A sector's worth of bytes. */
  type Block = s: seq<byte> | |s| == BlockSectorSize witness ZeroBytes()

  function ZeroBytes(): seq<byte> {
    seq(BlockSectorSize, _ => 0)
  }

  /** The all-zero sector (the `zeros` buffer the inode layer writes to
      freshly allocated sectors). */
  function Zeros(): (z: Block)
    ensures forall i :: 0 <= i < BlockSectorSize ==> z[i] == 0
  {
    ZeroBytes()
  }

  /** Contents of the whole device. */
  type Disk = map<Sector, Block>

  /** block_read: the content of sector `s`. A sector the map does not hold
      has never been written and reads as zeros. */
  function BlockRead(disk: Disk, s: Sector): Block {
    if s in disk then disk[s] else Zeros()
  }

  /** `disk` differs from `disk0` at most in the sectors listed in `s`. */
  ghost predicate ChangedOnly(disk0: Disk, disk: Disk, s: seq<Sector>) {
    forall x {:trigger x in s} :: x !in s ==> BlockRead(disk, x) == BlockRead(disk0, x)
  }
}

module Wrappers {
  datatype Option<T> = None | Some(value: T)
}
