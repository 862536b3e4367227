/** The inode layer (inode.c): creation of files, the list of open inodes
    with their open and deny-write counts, release of a removed file's
    sectors on last close, and reads and writes of file bytes, growing the
    file on a write past its end. The device is the sector map the buffer
    cache presents (Cache.BufferCache.Content); the free map is a list of
    free sectors handed out from the front. */
module Inode {
  import opened Device
  import opened Wrappers
  import opened Layout
  import opened Descriptor
  import opened Growth
  import opened Indirect

  /** struct inode: an open inode, identified by its descriptor sector. */
  datatype Handle = Handle(sector: Sector, openCnt: int, denyWriteCnt: int, removed: bool, data: DiskInode)

  /** The position of the first handle in the list for sector `s`, or -1. */
  function Find(hs: seq<Handle>, s: Sector): (r: int)
    ensures -1 <= r < |hs|
    ensures r >= 0 ==> hs[r].sector == s
    ensures forall i :: 0 <= i < |hs| && (r < 0 || i < r) ==> hs[i].sector != s
  {
    if |hs| == 0 then -1
    else if hs[0].sector == s then 0
    else
      var r := Find(hs[1..], s);
      if r < 0 then -1 else r + 1
  }

  /** No sector has two handles. */
  ghost predicate UniqueHandles(hs: seq<Handle>) {
    forall i, j :: 0 <= i < j < |hs| ==> hs[i].sector != hs[j].sector
  }

  /** The number of bytes a read or write of `size` bytes at `offset` of a
      file of `length` bytes transfers: up to `size`, and none past the end. */
  function Transfer(length: int, offset: int, size: int): (r: int)
    ensures 0 <= r
    ensures r <= size || r == 0
    ensures r <= length - offset || r == 0
    ensures r == 0 <==> size <= 0 || offset >= length
    ensures r == size || r == length - offset || r == 0
  {
    if size <= 0 || offset >= length then 0 else Min(size, length - offset)
  }

  /** What byte_to_sector_write for byte `pos` of the open inode for
      sector `h` does besides writing sectors, from the open-inode list
      `hs0`, descriptor sectors `ds0` and free list `fl0` to `hs`, `ds` and
      `fl`: the handle's descriptor copy becomes the grown one (see Grew;
      the growth succeeds exactly when it Fits) and no other handle
      changes; inside the file nothing else changes; past it the sectors
      the growth needs are taken off the head of the free list (all that
      are left, when too few), and the descriptor sector is rewritten only
      when the growth succeeds. */
  ghost predicate GrowthFrame(hs0: seq<Handle>, ds0: map<Sector, DiskInode>, fl0: seq<Sector>,
                              hs: seq<Handle>, ds: map<Sector, DiskInode>, fl: seq<Sector>, h: Sector, pos: int)
    requires Find(hs0, h) >= 0
  {
    var i := Find(hs0, h);
    var d0 := hs0[i].data;
    && 0 <= d0.length && |hs| == |hs0|
    && hs == hs0[i := hs0[i].(data := hs[i].data)]
    && Grew(d0, pos, |fl0|, Fits(d0.length, pos, |fl0|), hs[i].data)
    && (pos < d0.length ==> ds == ds0 && fl == fl0)
    && (pos >= d0.length ==>
          var need := GrowNeeded(d0.length, pos);
          && fl == fl0[Min(need, |fl0|)..]
          && ds == (if need <= |fl0| then ds0[h := hs[i].data] else ds0))
  }

  /** What growth of descriptor `d0` for byte `pos` at or past its end
      does to the device `disk0`, with free list `free0`: only the sectors
      it takes off the head of the free list and the old file's tables may
      change, and when it succeeds on a sound file the new descriptor `d`
      over `disk` is the old one grown (see GrownFrom). */
  ghost predicate GrowthDisk(d0: DiskInode, disk0: Disk, free0: seq<Sector>, pos: int, ok: bool, d: DiskInode, disk: Disk)
    requires WellFormed(d0) && d0.length <= pos
  {
    && ChangedOnly(disk0, disk, free0[..Min(GrowNeeded(d0.length, pos), |free0|)] + Tables(d0, Sectors(d0)))
    && (ok && Sound(d0, disk0, free0) ==>
          && WellFormed(d) && |d.indirect| == |d0.indirect| && Sectors(d0) <= Sectors(d)
          && GrownFrom(d0, disk0, free0, d, disk))
  }

  class InodeLayer {
    /** INDIRECT_PTR_NUM: index table pointers per descriptor. */
    const indirectPtrNum: nat
    /** The sectors, as the buffer cache presents them. */
    var disk: Disk
    /** Descriptor sectors, as written by cache_write of a struct inode_disk. */
    var descriptors: map<Sector, DiskInode>
    /** The free map: free sectors, in the order allocation hands them out. */
    var freeList: seq<Sector>
    /** open_inodes. */
    var openInodes: seq<Handle>

    ghost predicate Valid()
      reads this`freeList, this`openInodes, this`descriptors
    {
      && Distinct(freeList)
      && UniqueHandles(openInodes)
      && (forall i :: 0 <= i < |openInodes| ==>
            && openInodes[i].openCnt >= 1 && openInodes[i].denyWriteCnt >= 0
            && WellFormed(openInodes[i].data) && |openInodes[i].data.indirect| == indirectPtrNum)
      && (forall s :: s in descriptors ==> WellFormed(descriptors[s]) && |descriptors[s].indirect| == indirectPtrNum)
    }

    /** The descriptor sector `s` holds. */
    function DescriptorAt(s: Sector): (d: DiskInode)
      reads this`freeList, this`openInodes, this`descriptors
      requires Valid()
      ensures WellFormed(d) && |d.indirect| == indirectPtrNum
    {
      if s in descriptors then descriptors[s] else ZeroInode(indirectPtrNum)
    }

    /** The handle open for sector `h`. */
    function HandleOf(h: Sector): Handle
      reads this`openInodes
      requires Find(openInodes, h) >= 0
    {
      openInodes[Find(openInodes, h)]
    }

    /** inode_init, over a device and a free map. */
    constructor Init(ni: nat, dev: Disk, free: seq<Sector>)
      requires Distinct(free)
      ensures Valid() && indirectPtrNum == ni
      ensures disk == dev && descriptors == map[] && freeList == free && openInodes == []
    {
      indirectPtrNum := ni;
      disk := dev;
      descriptors := map[];
      freeList := free;
      openInodes := [];
    }

    // -------------------------------------------------------------------
    // The free map

    /** free_map_allocate of one sector: the first free sector, or failure
        when none is free. */
    method Allocate() returns (r: Option<Sector>)
      modifies this`freeList
      ensures old(freeList) == [] ==> r == None && freeList == []
      ensures old(freeList) != [] ==> r == Some(old(freeList)[0]) && freeList == old(freeList)[1..]
    {
      if freeList == [] {
        r := None;
      } else {
        r := Some(freeList[0]);
        freeList := freeList[1..];
      }
    }

    /** free_map_release of one sector: it becomes free (again). */
    method Release(s: Sector)
      requires Distinct(freeList)
      modifies this`freeList
      ensures Distinct(freeList)
      ensures forall x :: x in freeList <==> x in old(freeList) || x == s
    {
      if s !in freeList {
        freeList := freeList + [s];
      }
    }

    // -------------------------------------------------------------------
    // The list of open inodes

    /** inode_reopen: one more opener; a null handle stays null. */
    method Reopen(h: Option<Sector>) returns (r: Option<Sector>)
      requires Valid() && (h.Some? ==> Find(openInodes, h.value) >= 0)
      modifies this`openInodes
      ensures Valid() && r == h
      ensures h.None? ==> openInodes == old(openInodes)
      ensures h.Some? ==>
                var i := Find(old(openInodes), h.value);
                openInodes == old(openInodes)[i := old(openInodes)[i].(openCnt := old(openInodes)[i].openCnt + 1)]
    {
      if h.Some? {
        var i := Find(openInodes, h.value);
        openInodes := openInodes[i := openInodes[i].(openCnt := openInodes[i].openCnt + 1)];
      }
      r := h;
    }

    /** inode_open: the handle already open for `sector` with one more
        opener, or a new handle, first in the list, with one opener, no
        write denial, not removed, holding the descriptor read from
        `sector`. */
    method Open(sector: Sector) returns (h: Sector)
      requires Valid()
      modifies this`openInodes
      ensures Valid() && h == sector && Find(openInodes, h) >= 0
      ensures var i := Find(old(openInodes), sector);
              if i >= 0 then
                openInodes == old(openInodes)[i := old(openInodes)[i].(openCnt := old(openInodes)[i].openCnt + 1)]
              else
                openInodes == [Handle(sector, 1, 0, false, DescriptorAt(sector))] + old(openInodes)
    {
      for i := 0 to |openInodes|
        invariant forall k :: 0 <= k < i ==> openInodes[k].sector != sector
      {
        if openInodes[i].sector == sector {
          ghost var hs := openInodes;
          var r := Reopen(Some(sector));
          FindSameSectors(hs, openInodes, sector);
          return sector;
        }
      }
      openInodes := [Handle(sector, 1, 0, false, DescriptorAt(sector))] + openInodes;
      h := sector;
    }

    /** inode_remove: mark the inode for deletion at last close. */
    method Remove(h: Sector)
      requires Valid() && Find(openInodes, h) >= 0
      modifies this`openInodes
      ensures Valid()
      ensures var i := Find(old(openInodes), h);
              openInodes == old(openInodes)[i := old(openInodes)[i].(removed := true)]
    {
      var i := Find(openInodes, h);
      openInodes := openInodes[i := openInodes[i].(removed := true)];
    }

    /** inode_deny_write: one more opener denies writes; there may not be
        more denials than openers. */
    method DenyWrite(h: Sector)
      requires Valid() && Find(openInodes, h) >= 0
      requires HandleOf(h).denyWriteCnt + 1 <= HandleOf(h).openCnt
      modifies this`openInodes
      ensures Valid()
      ensures var i := Find(old(openInodes), h);
              openInodes == old(openInodes)[i := old(openInodes)[i].(denyWriteCnt := old(openInodes)[i].denyWriteCnt + 1)]
      ensures Find(openInodes, h) == Find(old(openInodes), h)
      ensures HandleOf(h).denyWriteCnt <= HandleOf(h).openCnt
    {
      var i := Find(openInodes, h);
      var hs := openInodes;
      openInodes := openInodes[i := openInodes[i].(denyWriteCnt := openInodes[i].denyWriteCnt + 1)];
      FindSameSectors(hs, openInodes, h);
    }

    /** inode_allow_write: an opener that denied writes allows them again. */
    method AllowWrite(h: Sector)
      requires Valid() && Find(openInodes, h) >= 0
      requires 0 < HandleOf(h).denyWriteCnt <= HandleOf(h).openCnt
      modifies this`openInodes
      ensures Valid()
      ensures var i := Find(old(openInodes), h);
              openInodes == old(openInodes)[i := old(openInodes)[i].(denyWriteCnt := old(openInodes)[i].denyWriteCnt - 1)]
      ensures Find(openInodes, h) == Find(old(openInodes), h)
      ensures 0 <= HandleOf(h).denyWriteCnt < HandleOf(h).openCnt
    {
      var i := Find(openInodes, h);
      var hs := openInodes;
      openInodes := openInodes[i := openInodes[i].(denyWriteCnt := openInodes[i].denyWriteCnt - 1)];
      FindSameSectors(hs, openInodes, h);
    }

    /** inode_length: never negative, and addressable through the
        descriptor's pointers. */
    function Length(h: Sector): (r: int)
      reads this
      requires Find(openInodes, h) >= 0
      ensures Valid() ==> 0 <= r <= MaxBytes(indirectPtrNum)
    {
      HandleOf(h).data.length
    }

    /** inode_is_dir. */
    function IsDir(h: Sector): bool
      reads this
      requires Find(openInodes, h) >= 0
    {
      HandleOf(h).data.isDir
    }

    // -------------------------------------------------------------------
    // Closing

    /** The first loop of inode_close: release direct blocks [0, count). */
    method ReleaseDirect(d: DiskInode, count: nat)
      requires Distinct(freeList) && Shaped(d) && count <= DirectPtrNum
      modifies this`freeList
      ensures Distinct(freeList)
      ensures forall x :: x in freeList <==> x in old(freeList) || x in d.direct[..count]
    {
      for i := 0 to count
        invariant Distinct(freeList)
        invariant forall x :: x in freeList <==> x in old(freeList) || x in d.direct[..i]
      {
        assert d.direct[..i + 1] == d.direct[..i] + [d.direct[i]];
        Release(d.direct[i]);
      }
    }

    /** The table loop of inode_close: release the entries of every index
        table in use for `n` data blocks and, when `tables` holds, the
        table sectors themselves. */
    method ReleaseIndirect(d: DiskInode, n: int, tables: bool)
      requires Distinct(freeList) && Shaped(d) && DirectPtrNum < n <= MaxBlocks(|d.indirect|)
      modifies this`freeList
      ensures Distinct(freeList)
      ensures forall x :: x in freeList <==>
                x in old(freeList) || x in Blocks(d, disk, n)[DirectPtrNum..] || (tables && x in Tables(d, n))
    {
      ghost var blocks := Blocks(d, disk, n)[DirectPtrNum..];
      ghost var t := 0;
      var i := 0;
      while i < n - DirectPtrNum
        invariant i == t * 128 && 0 <= t <= NumTables(n)
        invariant i < n - DirectPtrNum ==> t < NumTables(n)
        invariant i >= n - DirectPtrNum ==> t == NumTables(n)
        invariant Distinct(freeList)
        invariant ReleasedUpTo(old(freeList), freeList, blocks[..Min(i, n - DirectPtrNum)], d.indirect[..t], tables)
      {
        DivUnique(i, 128, t, 0);
        var entry := i / 128;
        var table := TableAt(disk, d.indirect[entry]);
        var count := if n - DirectPtrNum - i >= 128 then 128 else n - DirectPtrNum - i;
        ghost var f0 := freeList;
        ReleaseEntries(table, count);
        ghost var f1 := freeList;
        if tables {
          Release(d.indirect[entry]);
        }
        ChunkOfTable(d, disk, n, i, count);
        ReleasedStep(old(freeList), f0, f1, freeList, blocks, i, count, table, d.indirect, t, tables);
        assert Min(i + 128, n - DirectPtrNum) == i + count;
        i, t := i + 128, t + 1;
      }
    }

    /** The inner loops of inode_close: release entries [0, count) of a table. */
    method ReleaseEntries(table: Table, count: int)
      requires Distinct(freeList) && 0 <= count <= 128
      modifies this`freeList
      ensures Distinct(freeList)
      ensures forall x :: x in freeList <==> x in old(freeList) || x in table[..count]
    {
      for j := 0 to count
        invariant Distinct(freeList)
        invariant forall x :: x in freeList <==> x in old(freeList) || x in table[..j]
      {
        assert table[..j + 1] == table[..j] + [table[j]];
        Release(table[j]);
      }
    }

    /** inode_close as written: one opener fewer; the last close drops the
        handle and, for a removed file, releases the descriptor sector and,
        only when the file has more than DIRECT_PTR_NUM data blocks, its
        data blocks; index table sectors are never released. */
    method CloseAsWritten(h: Option<Sector>)
      requires Valid() && (h.Some? ==> Find(openInodes, h.value) >= 0)
      modifies this`openInodes, this`freeList
      ensures Valid()
      ensures h.None? ==> openInodes == old(openInodes) && freeList == old(freeList)
      ensures h.Some? ==> Closed(old(openInodes), openInodes, h.value)
      ensures h.Some? ==>
                var hd := old(HandleOf(h.value));
                if hd.openCnt == 1 && hd.removed then
                  forall x :: x in freeList <==> x in old(freeList) || x in ReleasedAsWritten(hd.data, disk, hd.sector)
                else freeList == old(freeList)
    {
      if h.None? {
        return;
      }
      var i := Find(openInodes, h.value);
      var hd := openInodes[i];
      if hd.openCnt - 1 != 0 {
        openInodes := openInodes[i := hd.(openCnt := hd.openCnt - 1)];
        return;
      }
      openInodes := openInodes[..i] + openInodes[i + 1..];
      if hd.removed {
        var sectorNum := BytesToSectors(hd.data.length);
        if sectorNum < DirectPtrNum + 1 {
          Release(hd.sector);
          return;
        }
        SectorsInRange(hd.data);
        ReleaseDirect(hd.data, DirectPtrNum);
        ReleaseIndirect(hd.data, sectorNum, false);
        Release(hd.sector);
        BlocksSplit(hd.data, disk, sectorNum);
      }
    }

    /** inode_close as intended: the last close of a removed file releases
        every sector the file occupies (its data blocks and its index
        tables) and its descriptor sector. */
    method Close(h: Option<Sector>)
      requires Valid() && (h.Some? ==> Find(openInodes, h.value) >= 0)
      modifies this`openInodes, this`freeList
      ensures Valid()
      ensures h.None? ==> openInodes == old(openInodes) && freeList == old(freeList)
      ensures h.Some? ==> Closed(old(openInodes), openInodes, h.value)
      ensures h.Some? ==>
                var hd := old(HandleOf(h.value));
                if hd.openCnt == 1 && hd.removed then
                  forall x :: x in freeList <==> x in old(freeList) || x in Footprint(hd.data, disk) || x == hd.sector
                else freeList == old(freeList)
    {
      if h.None? {
        return;
      }
      var i := Find(openInodes, h.value);
      var hd := openInodes[i];
      if hd.openCnt - 1 != 0 {
        openInodes := openInodes[i := hd.(openCnt := hd.openCnt - 1)];
        return;
      }
      openInodes := openInodes[..i] + openInodes[i + 1..];
      if hd.removed {
        var sectorNum := BytesToSectors(hd.data.length);
        if sectorNum <= DirectPtrNum {
          ReleaseDirect(hd.data, sectorNum);
          assert Footprint(hd.data, disk) == hd.data.direct[..sectorNum];
        } else {
          ReleaseDirect(hd.data, DirectPtrNum);
          ReleaseIndirect(hd.data, sectorNum, true);
          BlocksSplit(hd.data, disk, sectorNum);
        }
        Release(hd.sector);
      }
    }

    // -------------------------------------------------------------------
    // Growing

    /** inode_create: a descriptor of `length` bytes (magic set, not a
        directory) whose blocks and tables are allocated and zero-filled as
        growth from an empty file does it, written to sector `sector`. It
        fails, writing no descriptor, when the free list runs out; the
        sectors taken by then stay taken. */
    method Create(sector: Sector, length: int) returns (ok: bool)
      requires Valid() && 0 <= length <= MaxBytes(indirectPtrNum)
      modifies this`descriptors, this`freeList, this`disk
      ensures Valid()
      ensures var need := Needed(0, BytesToSectors(length));
              && (ok <==> need <= |old(freeList)|)
              && freeList == old(freeList)[Min(need, |old(freeList)|)..]
      ensures !ok ==> descriptors == old(descriptors)
      ensures ok ==> sector in descriptors && descriptors == old(descriptors)[sector := descriptors[sector]]
      ensures ok ==> var d := descriptors[sector];
                     && d.length == length && d.magic == InodeMagic && !d.isDir
                     && Sound(d, disk, freeList)
                     && (forall p :: 0 <= p < length ==> FileByte(d, disk, p) == 0)
                     && |d.indirect| == indirectPtrNum
                     && GrownFrom(ZeroInode(indirectPtrNum).(magic := InodeMagic), old(disk), old(freeList), d, disk)
      ensures ChangedOnly(old(disk), disk, old(freeList)[..Min(Needed(0, BytesToSectors(length)), |old(freeList)|)])
    {
      var d;
      d, ok := NewDescriptor(length);
      if ok {
        descriptors := descriptors[sector := d];
      }
    }

    /** The descriptor inode_create builds: an empty file, magic set and
        not a directory, grown to `length` bytes (see Grow). */
    method NewDescriptor(length: int) returns (d: DiskInode, ok: bool)
      requires Distinct(freeList) && 0 <= length <= MaxBytes(indirectPtrNum)
      modifies this`freeList, this`disk
      ensures WellFormed(d) && |d.indirect| == indirectPtrNum
      ensures var need := Needed(0, BytesToSectors(length));
              && (ok <==> need <= |old(freeList)|)
              && freeList == old(freeList)[Min(need, |old(freeList)|)..]
      ensures ok ==> && d.length == length && d.magic == InodeMagic && !d.isDir
                     && Sound(d, disk, freeList)
                     && (forall p :: 0 <= p < length ==> FileByte(d, disk, p) == 0)
                     && GrownFrom(ZeroInode(indirectPtrNum).(magic := InodeMagic), old(disk), old(freeList), d, disk)
      ensures ChangedOnly(old(disk), disk, old(freeList)[..Min(Needed(0, BytesToSectors(length)), |old(freeList)|)])
    {
      d := ZeroInode(indirectPtrNum).(magic := InodeMagic);
      assert BytesToSectors(0) == 0;
      EmptySound(d, disk, freeList);
      ok := true;
      if length > 0 {
        ghost var d0 := d;
        assert Sectors(d0) == 0 && Tables(d0, 0) == [];
        d, ok := Grow(d, length - 1);
        ghost var taken := old(freeList)[..Min(GrowNeeded(0, length - 1), |old(freeList)|)];
        assert taken + Tables(d0, Sectors(d0)) == taken;
      } else {
        assert freeList[0..] == freeList;
      }
    }

    /** byte_to_sector_write, with its direct-block allocations checked as
        its table allocations are. When byte `pos` lies past the end of the
        file, the file grows to end just after `pos` (see Grow) and the
        descriptor is written back; when the free list runs out, the length
        and the descriptor sector stay as they were, while the pointers
        already set in memory stay set. */
    method ByteToSectorWrite(h: Sector, pos: int) returns (ghost ok: bool)
      requires Valid() && Find(openInodes, h) >= 0 && pos < MaxBytes(indirectPtrNum)
      modifies this`openInodes, this`descriptors, this`freeList, this`disk
      ensures Valid() && Find(openInodes, h) == Find(old(openInodes), h)
      ensures GrowthFrame(old(openInodes), old(descriptors), old(freeList), openInodes, descriptors, freeList, h, pos)
      ensures Grew(old(HandleOf(h).data), pos, |old(freeList)|, ok, HandleOf(h).data)
      ensures pos < old(HandleOf(h).data.length) ==> openInodes == old(openInodes) && disk == old(disk)
      ensures ok && Sound(old(HandleOf(h).data), old(disk), old(freeList)) ==>
                var d0, d := old(HandleOf(h).data), HandleOf(h).data;
                && Sound(d, disk, freeList)
                && Extends(d0, old(disk), d, disk)
                && GrewOn(d0, old(disk), old(freeList), d, disk, freeList)
      ensures pos >= old(HandleOf(h).data.length) ==>
                GrowthDisk(old(HandleOf(h).data), old(disk), old(freeList), pos, ok, HandleOf(h).data, disk)
    {
      var i := Find(openInodes, h);
      var d := openInodes[i].data;
      ok := true;
      if pos < d.length {
        return;
      }
      var grown;
      d, grown := Grow(d, pos);
      ok := grown;
      if grown {
        descriptors := descriptors[h := d];
      }
      SetData(h, d);
    }

    /** The in-place update of an open inode's descriptor copy. */
    method SetData(h: Sector, d: DiskInode)
      requires Valid() && Find(openInodes, h) >= 0 && WellFormed(d) && |d.indirect| == indirectPtrNum
      modifies this`openInodes
      ensures Valid() && Find(openInodes, h) == Find(old(openInodes), h)
      ensures var i := Find(old(openInodes), h);
              openInodes == old(openInodes)[i := old(openInodes)[i].(data := d)]
    {
      var i := Find(openInodes, h);
      var hs := openInodes;
      openInodes := openInodes[i := openInodes[i].(data := d)];
      FindSameSectors(hs, openInodes, h);
    }

    /** The growth byte_to_sector_write performs on descriptor `dIn` for
        byte `pos` at or past its end: the missing direct blocks, then table
        by table the missing tables and entries, each taken from the free
        list and zero-filled, stopping at the first allocation that fails.
        When none fails the length becomes pos + 1. A sound file stays
        sound, keeps its bytes and reads zero in the part it grew by. */
    method Grow(dIn: DiskInode, pos: int) returns (d: DiskInode, grown: bool)
      requires WellFormed(dIn) && |dIn.indirect| == indirectPtrNum && dIn.length <= pos < MaxBytes(indirectPtrNum)
      modifies this`freeList, this`disk
      ensures WellFormed(d) && |d.indirect| == indirectPtrNum && d.isDir == dIn.isDir && d.magic == dIn.magic
      ensures var need := GrowNeeded(dIn.length, pos);
              && (grown <==> need <= |old(freeList)|)
              && freeList == old(freeList)[Min(need, |old(freeList)|)..]
              && d.length == (if grown then pos + 1 else dIn.length)
      ensures grown && Sound(dIn, old(disk), old(freeList)) ==>
                && Sound(d, disk, freeList)
                && Extends(dIn, old(disk), d, disk)
      ensures GrowthDisk(dIn, old(disk), old(freeList), pos, grown, d, disk)
    {
      ghost var disk0, free0 := disk, freeList;
      ghost var sound := Sound(dIn, disk0, free0);
      var sectorEnd := BytesToSectors(dIn.length);
      var sectorOff := BytesToSectors(pos + 1);
      SectorsMono(dIn.length, pos + 1);
      SectorsInRange(dIn.(length := pos + 1));
      NeededOfDirect(sectorEnd, sectorOff);
      d, grown := GrowDirectBlocks(dIn, disk0, free0, sound, sectorEnd, sectorOff);
      if grown && sectorOff > DirectPtrNum {
        if sound {
          OldApart(dIn, disk0, free0);
        }
        d, grown := GrowTables(dIn, disk0, free0, sound, d, sectorEnd, sectorOff);
        if grown && sound {
          GrowResult(dIn, disk0, free0, d, disk, pos, NumTables(sectorOff), freeList);
        }
      } else if grown && sound {
        GrowResult(dIn, disk0, free0, d, disk, pos, FirstTable(sectorEnd), freeList);
      }
      if grown {
        d := d.(length := pos + 1);
      }
      SectorsInRange(d);
    }

    /** The direct blocks of growth from `oldN` to `newN` blocks: the
        missing direct pointers get the next free sectors, which are
        zero-filled; this fails when the free list runs out first. A sound
        file then has every block before the first table done. */
    method GrowDirectBlocks(dIn: DiskInode, ghost disk0: Disk, ghost free0: seq<Sector>, ghost sound: bool,
                            oldN: nat, newN: nat) returns (d: DiskInode, ok: bool)
      requires WellFormed(dIn) && oldN == Sectors(dIn) && oldN <= newN <= MaxBlocks(|dIn.indirect|)
      requires disk == disk0 && freeList == free0 && (sound ==> Sound(dIn, disk0, free0))
      modifies this`freeList, this`disk
      ensures d == dIn.(direct := d.direct) && Shaped(d)
      ensures ok <==> DirectNew(oldN, newN) <= |free0|
      ensures freeList == free0[Min(DirectNew(oldN, newN), |free0|)..]
      ensures ok && sound ==> TablesDone(dIn, disk0, free0, oldN, newN, d, disk, FirstTable(oldN))
      ensures Confined(Tables(dIn, oldN), disk0, free0, DirectNew(oldN, newN), d, disk)
    {
      d, ok := dIn, true;
      if oldN < DirectPtrNum {
        var directNew := if newN < DirectPtrNum then newN else DirectPtrNum;
        var direct, full := FillEntries(d.direct, oldN, directNew);
        d := d.(direct := direct);
        ok := full;
        if full && sound {
          DirectFilled(dIn, disk0, free0, oldN, newN, direct, disk, freeList);
        }
        ghost var n := Min(DirectNew(oldN, newN), |free0|);
        assert free0[..n] == free0[0..n];
        ConfinedFill(Tables(dIn, oldN), disk0, free0, 0, DirectNew(oldN, newN), disk0, 0, n);
      } else {
        assert free0[0..] == free0;
        if sound {
          NoDirect(dIn, disk0, free0, oldN, newN);
        }
      }
    }

    /** The direct-block loop of byte_to_sector_write: direct pointers
        [from, to) get the next free sectors. The failure of an allocation
        is not checked: the pointer then keeps its value, and the sector it
        names is zero-filled all the same. */
    method GrowDirect(dIn: DiskInode, from: int, to: int) returns (d: DiskInode)
      requires Shaped(dIn) && 0 <= from <= to <= DirectPtrNum
      modifies this`freeList, this`disk
      ensures (d, disk, freeList) == UncheckedDirect(dIn, old(disk), old(freeList), from, to)
    {
      var direct: seq<Sector> := dIn.direct;
      ghost var zeroed: seq<Sector> := [];
      UncheckedStart(dIn.direct, from, old(freeList), old(disk));
      for i := from to to
        invariant UncheckedUpTo(dIn.direct, from, i, old(freeList), direct, freeList, old(disk), zeroed, disk)
      {
        ghost var rest := freeList;
        var r := Allocate();
        UncheckedStep(dIn.direct, from, i, old(freeList), direct, rest, old(disk), zeroed, disk, r, freeList);
        if r.Some? {
          direct := direct[i := r.value];
        }
        zeroed := zeroed + [direct[i]];
        disk := disk[direct[i] := Zeros()];
      }
      UncheckedDirectIs(dIn, old(disk), old(freeList), from, to, direct, freeList, zeroed, disk);
      d := dIn.(direct := direct);
    }

    /** The entry loops of inode_create and byte_to_sector_write (and the
        direct-block loop of inode_create): entries [from, to) get the next
        free sectors, each zero-filled, until an allocation fails. */
    method FillEntries(entries: seq<Sector>, from: int, to: int) returns (filled: seq<Sector>, ok: bool)
      requires 0 <= from <= to <= |entries|
      modifies this`freeList, this`disk
      ensures ok <==> to - from <= |old(freeList)|
      ensures var n := Min(to - from, |old(freeList)|);
              && freeList == old(freeList)[n..]
              && filled == Refill(entries, from, from + n, old(freeList))
              && disk == ZeroFill(old(disk), old(freeList)[..n])
      ensures ok ==> Refilled(entries, from, to, old(freeList), filled, old(disk), disk, freeList)
    {
      filled, ok := entries, true;
      assert filled == Refill(entries, from, from, old(freeList));
      assert old(freeList)[..0] == [];
      for j := from to to
        invariant j - from <= |old(freeList)|
        invariant freeList == old(freeList)[j - from..]
        invariant filled == Refill(entries, from, j, old(freeList))
        invariant disk == ZeroFill(old(disk), old(freeList)[..j - from])
      {
        var r := Allocate();
        if r.None? {
          ok := false;
          return;
        }
        assert old(freeList)[..j + 1 - from][..j - from] == old(freeList)[..j - from];
        filled := filled[j := r.value];
        assert filled == Refill(entries, from, j + 1, old(freeList));
        disk := disk[r.value := Zeros()];
      }
    }

    /** The table loop of byte_to_sector_write, growing a file of `oldN`
        data blocks to `newN` (inode_create runs the same loop from an
        empty file). It passes over the tables from the one holding the
        first missing entry on, and gives up at the first allocation that
        fails; when none fails, it has taken exactly the sectors growth
        needs and every table holds its new entries. */
    method GrowTables(ghost d0: DiskInode, ghost disk0: Disk, ghost free0: seq<Sector>, ghost sound: bool,
                      dIn: DiskInode, oldN: nat, newN: nat) returns (d: DiskInode, ok: bool)
      requires oldN <= newN <= MaxBlocks(indirectPtrNum) && DirectPtrNum < newN
      requires Shaped(dIn) && |dIn.indirect| == indirectPtrNum
      requires sound ==> |d0.indirect| == indirectPtrNum && Growing(d0, disk0, free0, oldN, newN, dIn, disk, FirstTable(oldN))
      requires freeList == free0[Min(DirectNew(oldN, newN), |free0|)..]
      requires NumTables(oldN) <= indirectPtrNum && Confined(Tables(dIn, oldN), disk0, free0, DirectNew(oldN, newN), dIn, disk)
      modifies this`freeList, this`disk
      ensures d == dIn.(indirect := d.indirect) && |d.indirect| == indirectPtrNum
      ensures ok <==> Needed(oldN, newN) <= |free0|
      ensures freeList == free0[Min(Needed(oldN, newN), |free0|)..]
      ensures ok && sound ==> Growing(d0, disk0, free0, oldN, newN, d, disk, NumTables(newN))
      ensures Confined(Tables(dIn, oldN), disk0, free0, Needed(oldN, newN), d, disk)
    {
      d, ok := dIn, true;
      var ise := if oldN > DirectPtrNum then oldN - DirectPtrNum else 0;
      var tableNOld := (ise + 128 - 1) / 128;
      var iso := newN - DirectPtrNum;
      LoopStart(oldN, newN);
      NumTablesMono(oldN, newN);
      TablesInRange(newN, indirectPtrNum);
      ghost var t := FirstTable(oldN);
      var i := (ise / 128) * 128;
      while i < iso
        invariant i == t * 128
        invariant TableLoop(d0, disk0, free0, sound, oldN, newN, dIn, d, disk, freeList, t)
        invariant Confined(Tables(dIn, oldN), disk0, free0, Consumed(oldN, newN, t), d, disk)
        decreases iso - i
      {
        d, ok := TableStep(d0, disk0, free0, sound, dIn, d, oldN, newN, t, i, ise, tableNOld, iso);
        if !ok {
          return;
        }
        i, t := i + 128, t + 1;
      }
      LoopEnd(oldN, newN, t);
    }

    /** The table loop's body: one pass, which keeps the loop's invariant
        for the next table or reports that the free list ran out. */
    method TableStep(ghost d0: DiskInode, ghost disk0: Disk, ghost free0: seq<Sector>, ghost sound: bool,
                     ghost dIn: DiskInode, dT: DiskInode, oldN: nat, newN: nat, ghost t: nat,
                     i: int, ise: int, tableNOld: int, iso: int) returns (d: DiskInode, ok: bool)
      requires newN <= MaxBlocks(indirectPtrNum) && DirectPtrNum < newN && |dIn.indirect| == indirectPtrNum
      requires Shaped(dIn) && (sound ==> |d0.indirect| == indirectPtrNum)
      requires ise == FirstEntry(oldN) && tableNOld == (ise + 128 - 1) / 128 && iso == newN - DirectPtrNum
      requires i == t * 128 && i < iso
      requires TableLoop(d0, disk0, free0, sound, oldN, newN, dIn, dT, disk, freeList, t)
      requires NumTables(oldN) <= indirectPtrNum && Confined(Tables(dIn, oldN), disk0, free0, Consumed(oldN, newN, t), dT, disk)
      modifies this`freeList, this`disk
      ensures d == dIn.(indirect := d.indirect) && |d.indirect| == indirectPtrNum
      ensures !ok ==> Needed(oldN, newN) > |free0| && freeList == []
      ensures ok ==> TableLoop(d0, disk0, free0, sound, oldN, newN, dIn, d, disk, freeList, t + 1)
      ensures Confined(Tables(dIn, oldN), disk0, free0, if ok then Consumed(oldN, newN, t + 1) else Needed(oldN, newN), d, disk)
    {
      TableUsed(newN, t);
      TablesInRange(newN, indirectPtrNum);
      d, ok := TablePass(d0, disk0, free0, sound, dT, oldN, newN, t, i, ise, tableNOld, iso, Tables(dIn, oldN));
    }

    /** One pass of the table loop, over table `t` (entry `i` / 128): a new
        table gets the next free sector and starts empty, an old one is
        read back; its missing entries are filled and zeroed, and it is
        written back. A failed allocation ends the pass early. */
    method TablePass(ghost d0: DiskInode, ghost disk0: Disk, ghost free0: seq<Sector>, ghost sound: bool,
                     dIn: DiskInode, oldN: nat, newN: nat, ghost t: nat,
                     i: int, ise: int, tableNOld: int, iso: int, ghost tables: seq<Sector>) returns (d: DiskInode, ok: bool)
      requires oldN <= newN <= MaxBlocks(indirectPtrNum) && DirectPtrNum < newN
      requires Shaped(dIn) && |dIn.indirect| == indirectPtrNum
      requires sound ==> |d0.indirect| == indirectPtrNum && Growing(d0, disk0, free0, oldN, newN, dIn, disk, t)
      requires ise == FirstEntry(oldN) && tableNOld == (ise + 128 - 1) / 128 && iso == newN - DirectPtrNum
      requires FirstTable(oldN) <= t < indirectPtrNum && i == t * 128 && i < iso
      requires freeList == free0[Min(Consumed(oldN, newN, t), |free0|)..]
      requires Consumed(oldN, newN, t) <= |free0| || NewTable(oldN, t)
      requires |tables| == NumTables(oldN) && Confined(tables, disk0, free0, Consumed(oldN, newN, t), dIn, disk)
      modifies this`freeList, this`disk
      ensures d == dIn.(indirect := d.indirect) && |d.indirect| == indirectPtrNum
      ensures !ok ==> Needed(oldN, newN) > |free0| && freeList == []
      ensures ok ==> Consumed(oldN, newN, t + 1) <= |free0| && freeList == free0[Min(Consumed(oldN, newN, t + 1), |free0|)..]
      ensures ok && sound ==> Growing(d0, disk0, free0, oldN, newN, d, disk, t + 1)
      ensures Confined(tables, disk0, free0, if ok then Consumed(oldN, newN, t + 1) else Needed(oldN, newN), d, disk)
    {
      PassBounds(oldN, newN, t, ise, tableNOld, iso, i);
      var table: Table, left: int;
      d, table, left, ok := OpenTable(free0, dIn, oldN, newN, t, i, ise, tableNOld, iso);
      if !ok {
        ConfinedFill(tables, disk0, free0, Consumed(oldN, newN, t), Needed(oldN, newN), disk, 0, 0);
        assert free0[0..0] == [];
        return;
      }
      assert d.indirect[..|tables|] == dIn.indirect[..|tables|];
      ok := FillTable(d0, disk0, free0, sound, dIn, d, table, left, oldN, newN, t, i, iso, tables);
    }

    /** The rest of a pass over table `t`, once opened: its missing entries
        are filled from the free list and zero-filled, and the table is
        written back to its sector. */
    method FillTable(ghost d0: DiskInode, ghost disk0: Disk, ghost free0: seq<Sector>, ghost sound: bool,
                     ghost dIn: DiskInode, d: DiskInode, table: Table, left: int, oldN: nat, newN: nat, ghost t: nat,
                     i: int, iso: int, ghost tables: seq<Sector>) returns (ok: bool)
      requires oldN <= newN && DirectPtrNum < newN && iso == newN - DirectPtrNum
      requires FirstTable(oldN) <= t && i == t * 128 && i / 128 == t && i < iso
      requires Filled(newN, t) == (if iso - i < 128 then iso - i else 128)
      requires Opened(free0, oldN, newN, t, dIn, disk, d, table, left, freeList)
      requires sound ==> Growing(d0, disk0, free0, oldN, newN, dIn, disk, t)
      requires |tables| == NumTables(oldN) && Confined(tables, disk0, free0, Consumed(oldN, newN, t), d, disk)
      modifies this`freeList, this`disk
      ensures !ok ==> Needed(oldN, newN) > |free0| && freeList == []
      ensures ok ==> Consumed(oldN, newN, t + 1) <= |free0| && freeList == free0[Min(Consumed(oldN, newN, t + 1), |free0|)..]
      ensures ok && sound ==> Growing(d0, disk0, free0, oldN, newN, d, disk, t + 1)
      ensures Confined(tables, disk0, free0, if ok then Consumed(oldN, newN, t + 1) else Needed(oldN, newN), d, disk)
    {
      var count := if iso - i < 128 then iso - i else 128;
      ghost var list := freeList;
      var filled, full := FillEntries(table, left, count);
      ok := full;
      if !full {
        EntriesFail(free0, oldN, newN, t, list, left, count);
        PassFailConfined(tables, disk0, free0, oldN, newN, t, list, d, old(disk));
        return;
      }
      ghost var diskA := disk;
      disk := disk[d.indirect[i / 128] := EncodeTable(filled)];
      FreeAfterPass(free0, oldN, newN, t, dIn, old(disk), d, table, left, count, list, filled, diskA, freeList);
      PassConfined(tables, disk0, free0, oldN, newN, t, dIn, old(disk), d, table, left, count, list, filled, diskA, freeList, EncodeTable(filled));
      if sound {
        LoopBody(d0, disk0, free0, oldN, newN, t, dIn, old(disk), d, table, left, count, list, filled, diskA, disk, freeList);
      }
    }

    /** The start of a pass over table `t`: a new table takes the next free
        sector and starts empty; an old one is read from its sector, and
        its entries from the old file's end on are to be filled. */
    method OpenTable(ghost free0: seq<Sector>, dIn: DiskInode, oldN: nat, newN: nat, ghost t: nat,
                     i: int, ise: int, tableNOld: int, iso: int) returns (d: DiskInode, table: Table, left: int, ok: bool)
      requires oldN <= newN && DirectPtrNum < newN && t < |dIn.indirect|
      requires ise == FirstEntry(oldN) && tableNOld == (ise + 128 - 1) / 128 && iso == newN - DirectPtrNum
      requires FirstTable(oldN) <= t && i == t * 128 && i < iso
      requires freeList == free0[Min(Consumed(oldN, newN, t), |free0|)..]
      requires Consumed(oldN, newN, t) <= |free0| || NewTable(oldN, t)
      modifies this`freeList
      ensures !ok ==> Needed(oldN, newN) > |free0| && freeList == [] && d == dIn
      ensures ok ==> Opened(free0, oldN, newN, t, dIn, disk, d, table, left, freeList)
    {
      PassBounds(oldN, newN, t, ise, tableNOld, iso, i);
      d, ok := dIn, true;
      var entry := i / 128;
      ghost var f1 := freeList;
      table, left := EmptyTable(), 0;
      if entry + 1 > tableNOld {
        var r := Allocate();
        if r.None? {
          ok := false;
          TableFails(free0, oldN, newN, t, f1);
          return;
        }
        d := d.(indirect := d.indirect[entry := r.value]);
        table, left := EmptyTable(), 0;
      } else {
        table, left := TableAt(disk, d.indirect[entry]), ise % 128;
      }
      EntriesStart(free0, oldN, newN, t, f1, freeList);
    }

    // -------------------------------------------------------------------
    // Reading

    /** inode_read_at: the bytes of the file from `offset`, sector by
        sector, stopping after `size` bytes or at the end of the file. */
    method ReadAt(h: Sector, size: int, offset: int) returns (buf: seq<byte>, bytesRead: int)
      requires Valid() && Find(openInodes, h) >= 0 && 0 <= offset
      ensures bytesRead == Transfer(HandleOf(h).data.length, offset, size)
      ensures buf == FileBytes(HandleOf(h).data, disk, offset, bytesRead)
    {
      var d := HandleOf(h).data;
      var size', offset' := size, offset;
      buf, bytesRead := [], 0;
      while size' > 0
        invariant Progress(d.length, offset, size, size', offset', bytesRead)
        invariant buf == FileBytes(d, disk, offset, bytesRead)
        decreases size'
      {
        var chunkSize := ChunkSize(d.length, offset', size');
        ProgressStep(d.length, offset, size, size', offset', bytesRead);
        if chunkSize <= 0 {
          break;
        }
        var sectorOfs := offset' % 512;
        var block := BlockRead(disk, ByteToSector(d, disk, offset'));
        var chunk;
        if sectorOfs == 0 && chunkSize == 512 {
          assert block == block[sectorOfs..sectorOfs + chunkSize];
          chunk := block;
        } else {
          chunk := block[sectorOfs..sectorOfs + chunkSize];
        }
        var read := bytesRead + chunkSize;
        SameBlock(d, disk, offset', chunkSize);
        FileBytesAppend(d, disk, offset, bytesRead, chunkSize, read, buf, chunk);
        buf := buf + chunk;
        size', offset', bytesRead := size' - chunkSize, offset' + chunkSize, read;
      }
    }

    /** inode_write_at: unless writes are denied, the file first grows to
        end at offset + size (see ByteToSectorWrite); then `buf` is written
        from `offset`, sector by sector, up to `size` bytes or the end of the
        file. */
    method WriteAt(h: Sector, buf: seq<byte>, size: int, offset: int) returns (bytesWritten: int)
      requires Valid() && Find(openInodes, h) >= 0 && size <= |buf|
      requires HandleOf(h).denyWriteCnt == 0 ==> 0 <= offset && offset + size <= MaxBytes(indirectPtrNum)
      modifies this`openInodes, this`descriptors, this`freeList, this`disk
      ensures Valid() && Find(openInodes, h) == Find(old(openInodes), h)
      ensures old(HandleOf(h).denyWriteCnt) != 0 ==>
                && bytesWritten == 0 && openInodes == old(openInodes) && descriptors == old(descriptors)
                && freeList == old(freeList) && disk == old(disk)
      ensures old(HandleOf(h).denyWriteCnt) == 0 ==>
                && GrowthFrame(old(openInodes), old(descriptors), old(freeList), openInodes, descriptors, freeList,
                               h, offset + size - 1)
                && WriteResult(old(HandleOf(h).data), old(disk), old(freeList), HandleOf(h).data, disk, freeList,
                               buf, offset, size, bytesWritten)
    {
      if HandleOf(h).denyWriteCnt != 0 {
        return 0;
      }
      bytesWritten := GrowAndWrite(h, buf, size, offset);
    }

    /** inode_write_at once writes are allowed: growth to offset + size,
        then the write loop over the grown descriptor. */
    method GrowAndWrite(h: Sector, buf: seq<byte>, size: int, offset: int) returns (bytesWritten: int)
      requires Valid() && Find(openInodes, h) >= 0 && 0 <= offset && size <= |buf|
      requires offset + size <= MaxBytes(indirectPtrNum)
      modifies this`openInodes, this`descriptors, this`freeList, this`disk
      ensures Valid() && Find(openInodes, h) == Find(old(openInodes), h)
      ensures GrowthFrame(old(openInodes), old(descriptors), old(freeList), openInodes, descriptors, freeList,
                          h, offset + size - 1)
      ensures WriteResult(old(HandleOf(h).data), old(disk), old(freeList), HandleOf(h).data, disk, freeList,
                          buf, offset, size, bytesWritten)
    {
      ghost var d0, disk0, free0 := HandleOf(h).data, disk, freeList;
      ghost var ok := ByteToSectorWrite(h, offset + size - 1);
      var d := HandleOf(h).data;
      assert d0 == old(HandleOf(h).data) && free0 == old(freeList);
      bytesWritten := WriteGrown(d, buf, size, offset, d0, disk0, free0, ok);
    }

    /** The write loop of inode_write_at over descriptor `d`, which the
        growth made of `d0` over `disk0` with free list `free0`: the
        outcome is that of the whole write (see WriteResult). */
    method WriteGrown(d: DiskInode, buf: seq<byte>, size: int, offset: int,
                      ghost d0: DiskInode, ghost disk0: Disk, ghost free0: seq<Sector>, ghost ok: bool)
      returns (bytesWritten: int)
      requires Shaped(d0) && 0 <= d0.length && Shaped(d) && 0 <= offset && size <= |buf|
      requires Grew(d0, offset + size - 1, |free0|, ok, d)
      requires ok && Sound(d0, disk0, free0) ==>
                 Sound(d, disk, freeList) && Extends(d0, disk0, d, disk) && GrewOn(d0, disk0, free0, d, disk, freeList)
      modifies this`disk
      ensures WriteResult(d0, disk0, free0, d, disk, freeList, buf, offset, size, bytesWritten)
    {
      ghost var disk1 := disk;
      bytesWritten := WriteLoop(d, buf, size, offset, ok && Sound(d0, disk0, free0));
      WriteOutcome(d0, disk0, free0, ok, d, disk1, disk, freeList, buf, offset, size, bytesWritten);
    }

    /** The sector content one chunk of inode_write_at writes to sector `s`:
        the data itself when it covers the sector, else the data copied
        into a bounce buffer that holds the sector's content when the chunk
        leaves some of it, and zeros otherwise. Whichever branch is taken,
        the result is the sector's content with the chunk patched in. */
    method Patch(s: Sector, ofs: int, data: seq<byte>) returns (block: Block)
      requires 0 <= ofs < 512 && 0 < |data| <= 512 - ofs
      ensures block == Bounce(BlockRead(disk, s), ofs, data)
    {
      if ofs == 0 && |data| == 512 {
        block := data;
        BounceAll(BlockRead(disk, s), data);
      } else {
        var bounce;
        if ofs > 0 || |data| < 512 - ofs {
          bounce := BlockRead(disk, s);
        } else {
          bounce := Zeros();
          BounceAll(bounce, data);
          BounceAll(BlockRead(disk, s), data);
        }
        block := Bounce(bounce, ofs, data);
      }
    }

    /** The loop of inode_write_at over descriptor `d`: each chunk, which
        ends at the end of its sector, of the file or of the data, is
        patched into its sector (see Patch). A sound file stays
        sound and reads `buf` where it was written. */
    method WriteLoop(d: DiskInode, buf: seq<byte>, size: int, offset: int, ghost sound: bool) returns (bytesWritten: int)
      requires Shaped(d) && 0 <= offset && size <= |buf| && (sound ==> Sound(d, disk, freeList))
      modifies this`disk
      ensures bytesWritten == Transfer(d.length, offset, size)
      ensures sound ==> Sound(d, disk, freeList) && Written(d, old(disk), disk, buf, offset, bytesWritten)
      ensures sound ==> InBlocks(d, old(disk), disk)
    {
      var size', offset' := size, offset;
      bytesWritten := 0;
      while size' > 0
        invariant Progress(d.length, offset, size, size', offset', bytesWritten)
        invariant sound ==> Sound(d, disk, freeList) && Written(d, old(disk), disk, buf, offset, bytesWritten)
        invariant sound ==> InBlocks(d, old(disk), disk)
        decreases size'
      {
        var sectorIdx := ByteToSector(d, disk, offset');
        var sectorOfs := offset' % 512;
        var chunkSize := ChunkSize(d.length, offset', size');
        ProgressStep(d.length, offset, size, size', offset', bytesWritten);
        if chunkSize <= 0 {
          break;
        }
        var block := Patch(sectorIdx, sectorOfs, buf[bytesWritten..bytesWritten + chunkSize]);
        if sound {
          ChunkWritten(d, old(disk), disk, freeList, buf, offset, bytesWritten, chunkSize, offset', sectorIdx, block);
        }
        disk := disk[sectorIdx := block];
        size', offset', bytesWritten := size' - chunkSize, offset' + chunkSize, bytesWritten + chunkSize;
      }
    }
  }

  /** The list after a close of `h`: one opener fewer, and the handle gone
      at the last close. */
  ghost predicate Closed(hs: seq<Handle>, hs': seq<Handle>, h: Sector)
  {
    var i := Find(hs, h);
    0 <= i &&
    if hs[i].openCnt == 1 then hs' == hs[..i] + hs[i + 1..]
    else hs' == hs[i := hs[i].(openCnt := hs[i].openCnt - 1)]
  }

  /** What inode_close releases for a removed file as written: the
      descriptor sector and, for more than DIRECT_PTR_NUM data blocks, the
      data blocks. */
  ghost function ReleasedAsWritten(d: DiskInode, disk: Disk, sector: Sector): set<Sector>
    requires Shaped(d) && d.length <= MaxBytes(|d.indirect|)
  {
    var n := BytesToSectors(d.length);
    if n < DirectPtrNum + 1 then {sector}
    else
      SectorsInRange(d);
      (set x | x in Blocks(d, disk, n)) + {sector}
  }

  /** What the table loop of inode_close has released so far: the sectors
      of `blocks` and, when `tables` holds, those of `ind`. */
  ghost predicate ReleasedUpTo(free0: seq<Sector>, free: seq<Sector>, blocks: seq<Sector>, ind: seq<Sector>, tables: bool) {
    forall x :: x in free <==> x in free0 || x in blocks || (tables && x in ind)
  }

  /** One pass of the table loop of inode_close releases the next chunk of
      data blocks and, when `tables` holds, the next table sector. */
  lemma ReleasedStep(free0: seq<Sector>, f0: seq<Sector>, f1: seq<Sector>, f2: seq<Sector>, blocks: seq<Sector>,
                     i: int, count: int, table: seq<Sector>, ind: seq<Sector>, t: int, tables: bool)
    requires 0 <= i && 0 <= count <= |table| && i + count <= |blocks| && 0 <= t < |ind|
    requires table[..count] == blocks[i..i + count]
    requires ReleasedUpTo(free0, f0, blocks[..i], ind[..t], tables)
    requires forall x :: x in f1 <==> x in f0 || x in table[..count]
    requires tables ==> forall x :: x in f2 <==> x in f1 || x == ind[t]
    requires !tables ==> f2 == f1
    ensures ReleasedUpTo(free0, f2, blocks[..i + count], ind[..t + 1], tables)
  {
    assert blocks[..i + count] == blocks[..i] + table[..count];
    assert ind[..t + 1] == ind[..t] + [ind[t]];
  }

  /** inode_close as written leaks: the last close of a removed, sound,
      non-empty file leaves a sector of the file in use, a data block when
      the file has at most DIRECT_PTR_NUM blocks and the first index table
      otherwise. */
  lemma CloseAsWrittenLeaks(d: DiskInode, disk: Disk, free: seq<Sector>, sector: Sector)
    requires Sound(d, disk, free) && 0 < d.length && sector !in Footprint(d, disk)
    ensures var fp := Footprint(d, disk);
            exists k :: 0 <= k < |fp| && fp[k] !in ReleasedAsWritten(d, disk, sector)
  {
    var n := Sectors(d);
    var fp := Footprint(d, disk);
    var bs := Blocks(d, disk, n);
    assert 0 < n;
    if n < DirectPtrNum + 1 {
      assert fp[0] == bs[0] && fp[0] != sector;
    } else {
      assert NumTables(n) > 0;
      assert fp[n] == d.indirect[0] && fp[n] != sector;
      forall k | 0 <= k < n ensures bs[k] != fp[n] {
        assert bs[k] == (fp + free)[k] && fp[n] == (fp + free)[n];
      }
      assert fp[n] !in bs;
    }
  }

  /** The data blocks are the direct blocks followed by the table entries. */
  lemma BlocksSplit(d: DiskInode, disk: Disk, n: int)
    requires Shaped(d) && DirectPtrNum <= n <= MaxBlocks(|d.indirect|)
    ensures Blocks(d, disk, n) == d.direct[..DirectPtrNum] + Blocks(d, disk, n)[DirectPtrNum..]
  {
  }

  /** Entries [0, count) of the table read for position `i` of the table
      loop are data blocks [D + i, D + i + count). */
  lemma {:induction false} ChunkOfTable(d: DiskInode, disk: Disk, n: int, i: int, count: int)
    requires Shaped(d) && DirectPtrNum < n <= MaxBlocks(|d.indirect|)
    requires 0 <= i < n - DirectPtrNum && i % 128 == 0
    requires count == Min(128, n - DirectPtrNum - i)
    ensures i / 128 < |d.indirect|
    ensures TableAt(disk, d.indirect[i / 128])[..count] ==
            Blocks(d, disk, n)[DirectPtrNum..][i..i + count]
  {
    var t := i / 128;
    TableOfBlockInRange(DirectPtrNum + i, |d.indirect|);
    var table := TableAt(disk, d.indirect[t]);
    var bs := Blocks(d, disk, n);
    var chunk := bs[DirectPtrNum..][i..i + count];
    forall j | 0 <= j < count
      ensures table[j] == chunk[j]
    {
      assert chunk[j] == bs[DirectPtrNum + i + j];
      EntryOfBlock(d, disk, i, j);
    }
  }

  /** Entry `j` of the table at position `i` is data block D + i + j. */
  lemma {:induction false} EntryOfBlock(d: DiskInode, disk: Disk, i: int, j: int)
    requires Shaped(d) && 0 <= i && i % 128 == 0 && 0 <= j < 128
    requires DirectPtrNum + i + j < MaxBlocks(|d.indirect|)
    ensures i / 128 < |d.indirect|
    ensures TableAt(disk, d.indirect[i / 128])[j] == BlockSector(d, disk, DirectPtrNum + i + j)
  {
    var k := DirectPtrNum + i + j;
    TableOfBlockInRange(k, |d.indirect|);
    DivUnique(i + j, 128, i / 128, j);
    assert (k - DirectPtrNum) / 128 == i / 128 && (k - DirectPtrNum) % 128 == j;
  }

  /** How far the chunk loops of inode_read_at and inode_write_at have
      got: `n` bytes of the transfer done, `size'` left to do from `offset'`,
      and the transfer unfinished only while there is something left to do
      before the end of the file. */
  predicate Progress(length: int, offset: int, size: int, size': int, offset': int, n: int) {
    && offset' == offset + n && size' == size - n
    && 0 <= n <= Transfer(length, offset, size)
    && (n < Transfer(length, offset, size) ==> size' > 0 && offset' < length)
  }

  /** One chunk of those loops: an empty chunk means the transfer is
      complete; otherwise the chunk lies within the transfer, the file and
      one sector, and taking it keeps Progress. */
  lemma ProgressStep(length: int, offset: int, size: int, size': int, offset': int, n: int)
    requires 0 <= offset && Progress(length, offset, size, size', offset', n)
    ensures var c := ChunkSize(length, offset', size');
            && (c <= 0 ==> n == Transfer(length, offset, size))
            && (c > 0 ==> && n + c <= Transfer(length, offset, size) && n + c <= size
                          && offset' + c <= length && c <= 512 - offset' % 512
                          && Progress(length, offset, size, size' - c, offset' + c, n + c))
  {
  }

  /** The chunk inode_read_at and inode_write_at move next: the bytes left
      to move, the bytes left in the file, or the bytes left in the sector,
      whichever is fewest. */
  function ChunkSize(length: int, offset: int, size: int): (r: int)
    requires 0 <= offset
    ensures r <= size && r <= length - offset && r <= 512 - offset % 512
    ensures r == size || r == length - offset || r == 512 - offset % 512
  {
    var inodeLeft := length - offset;
    var sectorLeft := 512 - offset % 512;
    var minLeft := if inodeLeft < sectorLeft then inodeLeft else sectorLeft;
    if size < minLeft then size else minLeft
  }

  /** Appending the next bytes of a range extends it. */
  lemma FileBytesAppend(d: DiskInode, disk: Disk, from: int, n: nat, c: nat, m: nat, buf: seq<byte>, chunk: seq<byte>)
    requires Shaped(d) && 0 <= from && buf == FileBytes(d, disk, from, n) && chunk == FileBytes(d, disk, from + n, c)
    requires m == n + c
    ensures buf + chunk == FileBytes(d, disk, from, m)
  {
    FileBytesSplit(d, disk, from, n, c);
  }

  /** The bytes of one chunk, which does not cross a sector boundary, are
      consecutive bytes of the sector holding its first byte. */
  lemma {:induction false} SameBlock(d: DiskInode, disk: Disk, pos: int, n: int)
    requires Shaped(d) && 0 <= pos && 0 < n <= 512 - pos % 512 && pos + n <= d.length
    ensures FileBytes(d, disk, pos, n) ==
            BlockRead(disk, ByteToSector(d, disk, pos))[pos % 512..pos % 512 + n]
  {
    var r := pos % 512;
    var block := BlockRead(disk, ByteToSector(d, disk, pos));
    FileBytesAt(d, disk, pos, n);
    forall i | 0 <= i < n
      ensures FileBytes(d, disk, pos, n)[i] == block[r + i]
    {
      DivUnique(pos + i, 512, pos / 512, r + i);
      ByteInBlock(d, disk, pos, pos + i);
      assert FileBytes(d, disk, pos, n)[i] == FileByte(d, disk, pos + i);
    }
    assert FileBytes(d, disk, pos, n) == block[r..r + n];
  }

  /** A byte of the file lies in the sector of any earlier byte of the same
      data block. */
  lemma {:induction false} ByteInBlock(d: DiskInode, disk: Disk, pos: int, p: int)
    requires Shaped(d) && 0 <= pos <= p < d.length && p / 512 == pos / 512
    ensures FileByte(d, disk, p) == BlockRead(disk, ByteToSector(d, disk, pos))[p % 512]
  {
    var k := pos / 512;
    var m := MaxBlocks(|d.indirect|);
    assert MaxBytes(|d.indirect|) == m * 512;
    if pos < MaxBytes(|d.indirect|) {
      if p >= MaxBytes(|d.indirect|) {
        MulMono(m, k + 1, 512);
      }
      assert ByteToSector(d, disk, p) == BlockSector(d, disk, k);
    } else {
      assert ByteToSector(d, disk, p) == NoSector;
    }
  }

  /** Handles on the same sectors find the same position. */
  lemma {:induction false} FindSameSectors(hs: seq<Handle>, gs: seq<Handle>, s: Sector)
    requires |hs| == |gs| && forall i :: 0 <= i < |hs| ==> hs[i].sector == gs[i].sector
    ensures Find(hs, s) == Find(gs, s)
  {
    if |hs| > 0 {
      FindSameSectors(hs[1..], gs[1..], s);
    }
  }

  // ---------------------------------------------------------------------
  // Writing

  /** The bounce buffer after memcpy: `block` with bytes [ofs, ofs + |data|)
      replaced by `data`. */
  function Bounce(block: Block, ofs: int, data: seq<byte>): (r: Block)
    requires 0 <= ofs && ofs + |data| <= 512
    ensures forall j :: 0 <= j < 512 ==> r[j] == if ofs <= j < ofs + |data| then data[j - ofs] else block[j]
  {
    block[..ofs] + data + block[ofs + |data|..]
  }

  /** A whole sector's data fills the bounce buffer, whatever it held. */
  lemma BounceAll(block: Block, data: seq<byte>)
    requires |data| == 512
    ensures Bounce(block, 0, data) == data
  {
    assert Bounce(block, 0, data) == block[..0] + data + block[512..];
    assert block[..0] == [] && block[512..] == [];
  }

  /** Writes into the data blocks of a file over `disk0` have left every
      block in its sector and changed no sector but those blocks. */
  ghost predicate InBlocks(d: DiskInode, disk0: Disk, disk: Disk)
    requires WellFormed(d)
  {
    && Blocks(d, disk, Sectors(d)) == Blocks(d, disk0, Sectors(d))
    && ChangedOnly(disk0, disk, Blocks(d, disk0, Sectors(d)))
  }

  /** Every byte of the file reads as `buf` at positions [offset,
      offset + n) and as on `disk0` elsewhere. */
  ghost predicate Written(d: DiskInode, disk0: Disk, disk: Disk, buf: seq<byte>, offset: int, n: int) {
    && Shaped(d) && 0 <= offset && 0 <= n <= |buf|
    && forall p :: 0 <= p < d.length ==>
         FileByte(d, disk, p) == if offset <= p < offset + n then buf[p - offset] else FileByte(d, disk0, p)
  }

  /** Writing the next chunk of `buf`, at most to the end of its sector and
      of the file, into the sector holding its first byte (read, patched
      and written back) keeps a sound file sound and extends the written
      range by the chunk. */
  lemma {:induction false} ChunkWritten(d: DiskInode, disk0: Disk, disk: Disk, free: seq<Sector>, buf: seq<byte>,
                                        offset: int, n: int, c: int, pos: int, s: Sector, block: Block)
    requires Sound(d, disk, free) && Written(d, disk0, disk, buf, offset, n) && InBlocks(d, disk0, disk)
    requires pos == offset + n && 0 < c <= 512 - pos % 512 && pos + c <= d.length && n + c <= |buf|
    requires s == ByteToSector(d, disk, pos) && block == Bounce(BlockRead(disk, s), pos % 512, buf[n..n + c])
    ensures Sound(d, disk[s := block], free) && Written(d, disk0, disk[s := block], buf, offset, n + c)
    ensures InBlocks(d, disk0, disk[s := block])
  {
    ChunkSound(d, disk, free, pos, c, block);
    ChunkBytes(d, disk0, disk, free, buf, offset, n, c, block);
    ChunkFrame(d, disk0, disk, free, pos / 512, block);
  }

  /** Overwriting data block `k` of a sound file keeps the writes within
      its blocks. */
  lemma {:induction false} ChunkFrame(d: DiskInode, disk0: Disk, disk: Disk, free: seq<Sector>, k: nat, block: Block)
    requires Sound(d, disk, free) && k < Sectors(d) && InBlocks(d, disk0, disk)
    ensures InBlocks(d, disk0, disk[BlockSector(d, disk, k) := block])
  {
    var n, s := Sectors(d), BlockSector(d, disk, k);
    WriteBlockKeeps(d, disk, free, k, block);
    assert Blocks(d, disk[s := block], n) == Blocks(d, disk, n);
    assert Blocks(d, disk0, n)[k] == s;
    ConfinedWrite(disk0, disk, Blocks(d, disk0, n), s, block);
  }

  /** The patched sector is zero past the end of the file wherever the old
      one was, so the file stays sound. */
  lemma {:induction false} ChunkSound(d: DiskInode, disk: Disk, free: seq<Sector>, pos: int, c: int, block: Block)
    requires Sound(d, disk, free) && 0 <= pos && 0 < c <= 512 - pos % 512 && pos + c <= d.length
    requires forall j :: 0 <= j < 512 && !(pos % 512 <= j < pos % 512 + c) ==>
               block[j] == BlockRead(disk, ByteToSector(d, disk, pos))[j]
    ensures pos / 512 < Sectors(d) && ByteToSector(d, disk, pos) == BlockSector(d, disk, pos / 512)
    ensures Sound(d, disk[ByteToSector(d, disk, pos) := block], free)
  {
    var k := pos / 512;
    assert k < Sectors(d);
    forall q | d.length <= q < Sectors(d) * 512 && q / 512 == k
      ensures block[q % 512] == 0
    {
      DivUnique(q, 512, k, q % 512);
    }
    WriteBlockSound(d, disk, free, k, block);
  }

  /** The bytes of the file after the chunk's sector is written: the
      chunk's bytes from `buf`, all others as before. */
  lemma {:induction false} ChunkBytes(d: DiskInode, disk0: Disk, disk: Disk, free: seq<Sector>, buf: seq<byte>,
                                      offset: int, n: int, c: int, block: Block)
    requires Sound(d, disk, free) && Written(d, disk0, disk, buf, offset, n)
    requires 0 < c <= 512 - (offset + n) % 512 && offset + n + c <= d.length && n + c <= |buf|
    requires block == Bounce(BlockRead(disk, ByteToSector(d, disk, offset + n)), (offset + n) % 512, buf[n..n + c])
    ensures Written(d, disk0, disk[ByteToSector(d, disk, offset + n) := block], buf, offset, n + c)
  {
    var pos := offset + n;
    var k, ofs := pos / 512, pos % 512;
    var s := ByteToSector(d, disk, pos);
    var disk' := disk[s := block];
    assert s == BlockSector(d, disk, k) && k < Sectors(d);
    WriteBlock(d, disk, free, k, block);
    ChunkBytesAll(d, disk0, disk, disk', buf, offset, n, c, s, block);
  }

  /** ChunkBytes once the written sector's effect on each byte is known. */
  lemma ChunkBytesAll(d: DiskInode, disk0: Disk, disk: Disk, disk': Disk, buf: seq<byte>,
                      offset: int, n: int, c: int, s: Sector, block: Block)
    requires Written(d, disk0, disk, buf, offset, n)
    requires 0 < c <= 512 - (offset + n) % 512 && offset + n + c <= d.length && n + c <= |buf|
    requires s == ByteToSector(d, disk, offset + n)
    requires block == Bounce(BlockRead(disk, s), (offset + n) % 512, buf[n..n + c])
    requires forall p :: 0 <= p < d.length ==>
               FileByte(d, disk', p) == if p / 512 == (offset + n) / 512 then block[p % 512] else FileByte(d, disk, p)
    ensures Written(d, disk0, disk', buf, offset, n + c)
  {
    var pos := offset + n;
    forall p | 0 <= p < d.length
      ensures FileByte(d, disk', p) == if offset <= p < offset + n + c then buf[p - offset] else FileByte(d, disk0, p)
    {
      ChunkByte(d, disk, s, block, buf[n..n + c], p, pos, pos / 512, FileByte(d, disk', p));
      if pos <= p < pos + c {
        assert buf[n..n + c][p - pos] == buf[p - offset];
      }
    }
  }

  /** Byte `p` of the file after the chunk's sector `s` (block `k`) is
      written: a chunk byte when it lies in the chunk, as before otherwise. */
  lemma ChunkByte(d: DiskInode, disk: Disk, s: Sector, block: Block, data: seq<byte>, p: int, pos: int, k: int, b: byte)
    requires Shaped(d) && 0 <= p < d.length && 0 <= pos && 0 < |data| <= 512 - pos % 512 && k == pos / 512
    requires pos < d.length && s == ByteToSector(d, disk, pos)
    requires block == Bounce(BlockRead(disk, s), pos % 512, data)
    requires b == if p / 512 == k then block[p % 512] else FileByte(d, disk, p)
    ensures b == if pos <= p < pos + |data| then data[p - pos] else FileByte(d, disk, p)
  {
    ChunkRange(p, pos, |data|);
  }

  /** Byte `p` lies in the chunk [pos, pos + c), which does not cross a
      sector boundary, exactly when it lies in pos's sector at an offset
      within the chunk. */
  lemma ChunkRange(p: int, pos: int, c: int)
    requires 0 <= p && 0 <= pos && 0 < c <= 512 - pos % 512
    ensures (p / 512 == pos / 512 && pos % 512 <= p % 512 < pos % 512 + c) <==> pos <= p < pos + c
    ensures p / 512 == pos / 512 ==> p % 512 - pos % 512 == p - pos
  {
    if pos <= p < pos + c {
      DivUnique(p, 512, pos / 512, pos % 512 + p - pos);
    }
  }

  /** The length after inode_write_at's growth: the growth fits exactly
      when byte_to_sector_write succeeds, and the file then reaches at least
      to the end of the data, so the whole of it is written. */
  lemma WriteGrowth(d0: DiskInode, pos: int, free: nat, ok: bool, d: DiskInode, offset: int, size: int)
    requires 0 <= d0.length && 0 <= offset && pos == offset + size - 1
    requires Grew(d0, pos, free, ok, d)
    ensures ok <==> Fits(d0.length, pos, free)
    ensures ok ==> d.length == Max(d0.length, offset + size) && Transfer(d.length, offset, size) == Max(size, 0)
  {
  }

  /** File `d` over `disk` is file `d0` over `disk0` extended: the same
      bytes up to the old end, zeros from there to the new end. */
  ghost predicate Extends(d0: DiskInode, disk0: Disk, d: DiskInode, disk: Disk) {
    && Shaped(d0) && Shaped(d) && 0 <= d0.length
    && (forall p :: 0 <= p < d0.length ==> FileByte(d, disk, p) == FileByte(d0, disk0, p))
    && (forall p :: d0.length <= p < d.length ==> FileByte(d, disk, p) == 0)
  }

  /** File `d` over `disk`, with free list `free`, is file `d0` over
      `disk0`, with free list `free0`, grown (see GrownFrom; no growth
      when the lengths need the same blocks), and only the sectors taken
      off the head of the free list and the old file's tables changed. */
  ghost predicate GrewOn(d0: DiskInode, disk0: Disk, free0: seq<Sector>, d: DiskInode, disk: Disk, free: seq<Sector>) {
    && WellFormed(d0) && WellFormed(d) && |d.indirect| == |d0.indirect| && Sectors(d0) <= Sectors(d)
    && |free| <= |free0|
    && GrownFrom(d0, disk0, free0, d, disk)
    && ChangedOnly(disk0, disk, free0[..|free0| - |free|] + Tables(d0, Sectors(d0)))
  }

  /** What inode_write_at of `size` bytes of `buf` at `offset` promises
      when it turns file `d0` over `disk0`, with free list `free0`, into
      file `d` over `disk`, with free list `free`, and reports `n` bytes
      written: `n` is what fits in the file as it now is; when the file
      could grow to the end of the range, it has, and the whole range is
      written; a sound file then stays sound and holds `buf` in the range,
      its old bytes before the old end and zeros after it elsewhere, and
      no sector changed but the file's own and those taken off the head
      of the free list. */
  ghost predicate WriteResult(d0: DiskInode, disk0: Disk, free0: seq<Sector>, d: DiskInode, disk: Disk,
                              free: seq<Sector>, buf: seq<byte>, offset: int, size: int, n: int) {
    && n == Transfer(d.length, offset, size)
    && (Fits(d0.length, offset + size - 1, |free0|) ==>
          && d.length == Max(d0.length, offset + size)
          && n == Max(size, 0))
    && (Fits(d0.length, offset + size - 1, |free0|) && Sound(d0, disk0, free0) && 0 <= offset ==>
          && Sound(d, disk, free) && n <= |buf|
          && FileBytes(d, disk, offset, n) == buf[..n]
          && (forall p :: 0 <= p < d.length && !(offset <= p < offset + n) ==>
                FileByte(d, disk, p) == if p < d0.length then FileByte(d0, disk0, p) else 0)
          && |free| <= |free0|
          && ChangedOnly(disk0, disk, free0[..|free0| - |free|] + Footprint(d, disk)))
  }

  /** inode_write_at's outcome from that of its growth and of its chunk
      loop: when the file could grow to the end of the range, it has, the
      whole range is written, and the file holds `buf` in the range and
      its old bytes (or zeros past the old end) elsewhere. */
  lemma WriteOutcome(d0: DiskInode, disk0: Disk, free0: seq<Sector>, ok: bool, d: DiskInode, disk1: Disk,
                     disk: Disk, free: seq<Sector>, buf: seq<byte>, offset: int, size: int, n: int)
    requires Shaped(d0) && 0 <= d0.length && 0 <= offset && Grew(d0, offset + size - 1, |free0|, ok, d)
    requires n == Transfer(d.length, offset, size)
    requires ok && Sound(d0, disk0, free0) ==>
               && Sound(d, disk1, free)
               && Extends(d0, disk0, d, disk1) && GrewOn(d0, disk0, free0, d, disk1, free)
               && Sound(d, disk, free) && Written(d, disk1, disk, buf, offset, n) && InBlocks(d, disk1, disk)
    requires Max(size, 0) <= |buf|
    ensures WriteResult(d0, disk0, free0, d, disk, free, buf, offset, size, n)
  {
    WriteGrowth(d0, offset + size - 1, |free0|, ok, d, offset, size);
    if ok && Sound(d0, disk0, free0) {
      WriteBytes(d0, disk0, d, disk1, disk, buf, offset, n);
      WriteFrame(d0, disk0, free0, d, disk1, disk, free);
    }
  }

  /** The sectors inode_write_at changes: those growth took off the free
      list, the old tables, which the grown file keeps, and the blocks the
      chunk loop writes, all of which belong to the grown file. */
  lemma {:induction false} WriteFrame(d0: DiskInode, disk0: Disk, free0: seq<Sector>, d: DiskInode, disk1: Disk,
                                      disk: Disk, free: seq<Sector>)
    requires GrewOn(d0, disk0, free0, d, disk1, free) && InBlocks(d, disk1, disk)
    ensures ChangedOnly(disk0, disk, free0[..|free0| - |free|] + Footprint(d, disk))
  {
    var n0, n := Sectors(d0), Sectors(d);
    NumTablesMono(n0, n);
    var taken := free0[..|free0| - |free|];
    var s := taken + Footprint(d, disk);
    forall u | 0 <= u < NumTables(n0) ensures d0.indirect[u] in s {
      assert s[|taken| + n + u] == d.indirect[u];
    }
    forall x | x !in s ensures BlockRead(disk, x) == BlockRead(disk0, x) {
      assert x !in Blocks(d, disk1, n);
      assert x !in taken + Tables(d0, n0);
    }
  }

  /** The file after inode_write_at, from the grown file's bytes and the
      written range: `buf` in the range, the old bytes before the old end
      and zeros after it elsewhere. */
  lemma {:induction false} WriteBytes(d0: DiskInode, disk0: Disk, d: DiskInode, disk1: Disk, disk: Disk,
                                      buf: seq<byte>, offset: int, n: int)
    requires Shaped(d0) && 0 <= d0.length && Written(d, disk1, disk, buf, offset, n) && (n == 0 || offset + n <= d.length)
    requires Extends(d0, disk0, d, disk1)
    ensures FileBytes(d, disk, offset, n) == buf[..n]
    ensures forall p :: 0 <= p < d.length && !(offset <= p < offset + n) ==>
              FileByte(d, disk, p) == if p < d0.length then FileByte(d0, disk0, p) else 0
  {
    FileBytesAt(d, disk, offset, n);
  }
}

