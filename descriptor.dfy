/** The on-disk inode (struct inode_disk) and the translation of a byte
    offset within a file to the device sector holding it (byte_to_sector).
    The device is the sector map the buffer cache presents. */
module Descriptor {
  import opened Device
  import opened Layout

  /** struct inode_disk: the file length in bytes, the magic number, the
      directory flag, DIRECT_PTR_NUM direct block pointers and
      INDIRECT_PTR_NUM pointers to index table sectors. */
  datatype DiskInode = DiskInode(length: int, magic: int, isDir: bool, direct: seq<Sector>, indirect: seq<Sector>)

  /** The descriptor held by a sector that was never written: all fields zero. */
  function ZeroInode(ni: nat): (d: DiskInode)
    ensures d.length == 0 && !d.isDir && |d.direct| == DirectPtrNum && |d.indirect| == ni
  {
    DiskInode(0, 0, false, seq(DirectPtrNum, _ => 0), seq(ni, _ => 0))
  }

  /** The descriptor has DIRECT_PTR_NUM direct pointers. */
  predicate Shaped(d: DiskInode) {
    |d.direct| == DirectPtrNum
  }

  /** The table held by sector `s`. */
  function TableAt(disk: Disk, s: Sector): Table {
    DecodeTable(BlockRead(disk, s))
  }

  /** The sector of data block `k` of the file: a direct pointer for the
      first DIRECT_PTR_NUM blocks, then entry (k - D) % 128 of index table
      (k - D) / 128. */
  function BlockSector(d: DiskInode, disk: Disk, k: nat): Sector
    requires Shaped(d) && k < MaxBlocks(|d.indirect|)
  {
    if k < DirectPtrNum then d.direct[k]
    else
      TableOfBlockInRange(k, |d.indirect|);
      TableAt(disk, d.indirect[(k - DirectPtrNum) / 128])[(k - DirectPtrNum) % 128]
  }

  lemma TableOfBlockInRange(k: nat, ni: nat)
    requires DirectPtrNum <= k < MaxBlocks(ni)
    ensures (k - DirectPtrNum) / 128 < ni
  {
  }

  /** byte_to_sector: the sector holding byte `pos` of the file, or the
      sentinel -1 (as a block_sector_t) when the file has no byte there or
      the offset is past what the pointers can address. */
  function ByteToSector(d: DiskInode, disk: Disk, pos: int): (r: Sector)
    requires Shaped(d) && 0 <= pos
    ensures pos >= d.length || pos >= MaxBytes(|d.indirect|) ==> r == NoSector
    ensures pos < d.length && pos < MaxBytes(|d.indirect|) ==>
              pos / 512 < MaxBlocks(|d.indirect|) && r == BlockSector(d, disk, pos / 512)
  {
    if pos >= d.length then NoSector
    else if pos < 4096 then
      d.direct[CDiv(pos, 512)]
    else if pos < 4096 + |d.indirect| * 65536 then
      IndirectIndices(pos, |d.indirect|);
      BlockOfOffset(pos, |d.indirect|);
      var t := CDiv(pos - 4096, 65536);
      var e := CDiv(pos - 4096 - t * 65536, 512);
      TableAt(disk, d.indirect[t])[e]
    else
      NoSector
  }

  lemma {:induction false} BlockOfOffset(pos: int, ni: nat)
    requires 0 <= pos < MaxBytes(ni)
    ensures pos / 512 < MaxBlocks(ni)
    ensures pos >= 4096 ==> pos / 512 >= DirectPtrNum
  {
    var k := pos / 512;
    if k >= MaxBlocks(ni) {
      MulMono(k, MaxBlocks(ni), 512);
    }
    if pos >= 4096 && k < DirectPtrNum {
      MulMono(DirectPtrNum - 1, k, 512);
    }
  }

  /** The last byte of the direct blocks lives in the last direct block, and
      the first byte after them in entry 0 of the first index table. */
  lemma DirectIndirectBoundary(d: DiskInode, disk: Disk)
    requires Shaped(d) && |d.indirect| > 0 && d.length > 4096
    ensures ByteToSector(d, disk, 4096 - 1) == d.direct[DirectPtrNum - 1]
    ensures ByteToSector(d, disk, 4096) == TableAt(disk, d.indirect[0])[0]
  {
  }

  /** Byte `pos` of the file as the device holds it. */
  function FileByte(d: DiskInode, disk: Disk, pos: int): byte
    requires Shaped(d) && 0 <= pos
  {
    BlockRead(disk, ByteToSector(d, disk, pos))[pos % 512]
  }

  /** The file as a function from positions to bytes. */
  function Contents(d: DiskInode, disk: Disk): int -> byte
    requires Shaped(d)
  {
    pos => if pos < 0 then 0 else FileByte(d, disk, pos)
  }

  /** Bytes [from, from + n) of the file. */
  function FileBytes(d: DiskInode, disk: Disk, from: int, n: nat): (r: seq<byte>)
    requires Shaped(d) && 0 <= from
    ensures |r| == n
  {
    Tabulate(Contents(d, disk), from, n)
  }

  /** Byte `i` of the range is byte from + i of the file. */
  lemma FileBytesAt(d: DiskInode, disk: Disk, from: int, n: nat)
    requires Shaped(d) && 0 <= from
    ensures forall i :: 0 <= i < n ==> FileBytes(d, disk, from, n)[i] == FileByte(d, disk, from + i)
  {
    TabulateAt(Contents(d, disk), from, n);
  }

  /** The bytes of a range are those of its two halves. */
  lemma FileBytesSplit(d: DiskInode, disk: Disk, from: int, a: nat, b: nat)
    requires Shaped(d) && 0 <= from
    ensures FileBytes(d, disk, from, a + b) == FileBytes(d, disk, from, a) + FileBytes(d, disk, from + a, b)
  {
    TabulateSplit(Contents(d, disk), from, a, b);
  }

  /** Values `f(from), …, f(from + n - 1)`. */
  function Tabulate(f: int -> byte, from: int, n: nat): (r: seq<byte>)
    ensures |r| == n
  {
    if n == 0 then [] else Tabulate(f, from, n - 1) + [f(from + n - 1)]
  }

  lemma {:induction false} TabulateAt(f: int -> byte, from: int, n: nat)
    ensures forall i :: 0 <= i < n ==> Tabulate(f, from, n)[i] == f(from + i)
  {
    if n > 0 {
      TabulateAt(f, from, n - 1);
    }
  }

  lemma {:induction false} TabulateSplit(f: int -> byte, from: int, a: nat, b: nat)
    ensures Tabulate(f, from, a + b) == Tabulate(f, from, a) + Tabulate(f, from + a, b)
  {
    if b > 0 {
      TabulateSplit(f, from, a, b - 1);
      assert from + (a + b) - 1 == (from + a) + b - 1;
      assert Tabulate(f, from, a + b) == Tabulate(f, from, a + b - 1) + [f(from + a + b - 1)];
    }
  }

  // ---------------------------------------------------------------------
  // The sectors a file occupies

  /** Data blocks of the file. */
  function Sectors(d: DiskInode): int {
    BytesToSectors(d.length)
  }

  /** The descriptor is shaped and its length addressable, so its data
      blocks and their tables fit the pointers (see SectorsInRange). */
  predicate WellFormed(d: DiskInode) {
    && Shaped(d) && 0 <= d.length <= MaxBytes(|d.indirect|)
    && Sectors(d) <= MaxBlocks(|d.indirect|) && NumTables(Sectors(d)) <= |d.indirect|
  }

  /** An addressable length needs no more blocks and tables than the
      descriptor has pointers for. */
  lemma {:induction false} SectorsInRange(d: DiskInode)
    requires Shaped(d) && 0 <= d.length <= MaxBytes(|d.indirect|)
    ensures WellFormed(d)
    ensures 0 <= Sectors(d) <= MaxBlocks(|d.indirect|)
    ensures NumTables(Sectors(d)) <= |d.indirect|
  {

  }

  /** The sectors of the first `n` data blocks, in block order. */
  function Blocks(d: DiskInode, disk: Disk, n: nat): (r: seq<Sector>)
    requires Shaped(d) && n <= MaxBlocks(|d.indirect|)
    ensures |r| == n && forall k :: 0 <= k < n ==> r[k] == BlockSector(d, disk, k)
  {
    seq(n, k requires 0 <= k < n => BlockSector(d, disk, k))
  }

  /** The index table sectors in use for `n` data blocks. */
  function Tables(d: DiskInode, n: nat): (r: seq<Sector>)
    requires NumTables(n) <= |d.indirect|
    ensures |r| == NumTables(n)
  {
    d.indirect[..NumTables(n)]
  }

  /** Every sector the file occupies: its data blocks, then its tables. */
  function Footprint(d: DiskInode, disk: Disk): seq<Sector>
    requires WellFormed(d)
  {
    Blocks(d, disk, Sectors(d)) + Tables(d, Sectors(d))
  }

  /** No sector occurs twice. */
  ghost predicate Distinct(s: seq<Sector>) {
    forall i, j :: 0 <= i < j < |s| ==> s[i] != s[j]
  }

  /** The bytes of the last data block past the end of the file are zero. */
  ghost predicate TailZero(d: DiskInode, disk: Disk)
    requires WellFormed(d)
  {
    forall pos :: d.length <= pos < Sectors(d) * 512 ==>
      BlockRead(disk, BlockSector(d, disk, pos / 512))[pos % 512] == 0
  }

  /** The file's data blocks and tables are distinct sectors, none of them
      free, and its last block is zero past the end of the file. */
  ghost predicate Sound(d: DiskInode, disk: Disk, free: seq<Sector>) {
    WellFormed(d) && Distinct(Footprint(d, disk) + free) && TailZero(d, disk)
  }

  /** An empty file occupies no sector: it is sound with any distinct free
      list. */
  lemma EmptySound(d: DiskInode, disk: Disk, free: seq<Sector>)
    requires WellFormed(d) && d.length == 0 && Distinct(free)
    ensures Sound(d, disk, free)
  {
    assert Sectors(d) == 0;
    assert Footprint(d, disk) + free == free;
  }

  /** A block's tables lie among the file's tables. */
  lemma {:induction false} TableOfBlock(k: nat, n: nat)
    requires DirectPtrNum <= k < n
    ensures (k - DirectPtrNum) / 128 < NumTables(n)
  {
    var t := (k - DirectPtrNum) / 128;
    if t >= NumTables(n) {
      MulMono(t, NumTables(n), 128);
    }
  }

  /** Overwriting data block `k` of a sound file leaves every block in its
      sector: no table changes. */
  lemma {:induction false} WriteBlockKeeps(d: DiskInode, disk: Disk, free: seq<Sector>, k: nat, b: Block)
    requires Sound(d, disk, free) && k < Sectors(d)
    ensures var disk' := disk[BlockSector(d, disk, k) := b];
            && (forall j :: 0 <= j < Sectors(d) ==> BlockSector(d, disk', j) == BlockSector(d, disk, j))
            && Footprint(d, disk') == Footprint(d, disk)
  {
    var n := Sectors(d);
    var s := BlockSector(d, disk, k);
    var disk' := disk[s := b];
    var all := Footprint(d, disk) + free;
    forall j | 0 <= j < n ensures BlockSector(d, disk', j) == BlockSector(d, disk, j) {
      if j >= DirectPtrNum {
        var t := (j - DirectPtrNum) / 128;
        TableOfBlock(j, n);
        assert all[n + t] == d.indirect[t] && all[k] == s;
      }
    }
    assert Blocks(d, disk', n) == Blocks(d, disk, n);
  }

  /** Overwriting data block `k` of a sound file with `b` changes exactly the
      bytes of that block: the bytes of block `k` become `b`, and all other
      bytes of the file are unchanged. */
  lemma {:induction false} WriteBlock(d: DiskInode, disk: Disk, free: seq<Sector>, k: nat, b: Block)
    requires Sound(d, disk, free) && k < Sectors(d)
    ensures var disk' := disk[BlockSector(d, disk, k) := b];
            forall pos :: 0 <= pos < d.length ==>
              FileByte(d, disk', pos) == if pos / 512 == k then b[pos % 512] else FileByte(d, disk, pos)
  {
    var s := BlockSector(d, disk, k);
    var disk' := disk[s := b];
    var all := Footprint(d, disk) + free;
    WriteBlockKeeps(d, disk, free, k, b);
    forall pos | 0 <= pos < d.length
      ensures FileByte(d, disk', pos) == if pos / 512 == k then b[pos % 512] else FileByte(d, disk, pos)
    {
      var j := pos / 512;
      BlockOfOffset(pos, |d.indirect|);
      assert j < Sectors(d);
      assert all[j] == BlockSector(d, disk, j) && all[k] == s;
    }
  }

  /** The file stays sound when the new content of block `k` is zero past
      the end of the file. */
  lemma {:induction false} WriteBlockSound(d: DiskInode, disk: Disk, free: seq<Sector>, k: nat, b: Block)
    requires Sound(d, disk, free) && k < Sectors(d)
    requires forall pos :: d.length <= pos < Sectors(d) * 512 && pos / 512 == k ==> b[pos % 512] == 0
    ensures Sound(d, disk[BlockSector(d, disk, k) := b], free)
  {
    var n := Sectors(d);
    var s := BlockSector(d, disk, k);
    var disk' := disk[s := b];
    var all := Footprint(d, disk) + free;
    WriteBlockKeeps(d, disk, free, k, b);
    forall pos | d.length <= pos < n * 512
      ensures BlockRead(disk', BlockSector(d, disk', pos / 512))[pos % 512] == 0
    {
      var j := pos / 512;
      BlockOfOffset(pos, |d.indirect|);
      assert all[j] == BlockSector(d, disk, j) && all[k] == s;
    }
  }
}
