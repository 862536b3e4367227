/** The order in which file growth (byte_to_sector_write) and creation
    (inode_create) take sectors from the free map, and what a file grown
    that way looks like. Growing a file from `oldN` to `newN` data blocks
    allocates, in order: the missing direct blocks; then, table by table,
    a fresh table sector when the table is new, followed by its missing
    entries. Creation is growth from an empty file. */
module Growth {
  import opened Device
  import opened Layout
  import opened Descriptor

  function Min(a: int, b: int): int {
    if a < b then a else b
  }

  /** Direct blocks allocated. */
  function DirectNew(oldN: nat, newN: nat): nat
    requires oldN <= newN
  {
    if oldN < DirectPtrNum then Min(newN, DirectPtrNum) - oldN else 0
  }

  /** Table entries the old file already uses. */
  function FirstEntry(oldN: nat): nat {
    if oldN > DirectPtrNum then oldN - DirectPtrNum else 0
  }

  /** Sectors allocated by growing from `oldN` to `newN` data blocks: one
      per new data block and one per new table. */
  function Needed(oldN: nat, newN: nat): (r: nat)
    requires oldN <= newN
    ensures r >= newN - oldN
  {
    NumTablesMono(oldN, newN);
    newN - oldN + NumTables(newN) - NumTables(oldN)
  }

  /** What byte_to_sector_write for byte `pos` makes of descriptor `d0`
      with `free` free sectors: nothing when `pos` lies inside the file;
      otherwise it succeeds exactly when the sectors growth needs are free,
      and the file then ends just after `pos`. */
  predicate Grew(d0: DiskInode, pos: int, free: nat, ok: bool, d: DiskInode)
    requires 0 <= d0.length
  {
    && (pos < d0.length ==> ok && d == d0)
    && (pos >= d0.length ==>
          && (ok <==> GrowNeeded(d0.length, pos) <= free)
          && d.length == (if ok then pos + 1 else d0.length)
          && d.isDir == d0.isDir && d.magic == d0.magic)
  }

  /** Growth for byte `pos` of a file of `length` bytes succeeds with
      `free` free sectors: nothing is needed or it fits. */
  predicate Fits(length: int, pos: int, free: nat) {
    pos < length || (0 <= length && GrowNeeded(length, pos) <= free)
  }

  /** Sectors growth takes to make byte `pos` part of a file of `length`
      bytes. */
  function GrowNeeded(length: int, pos: int): nat
    requires 0 <= length <= pos
  {
    SectorsMono(length, pos + 1);
    Needed(BytesToSectors(length), BytesToSectors(pos + 1))
  }

  lemma SectorsMono(a: int, b: int)
    requires 0 <= a <= b
    ensures 0 <= BytesToSectors(a) <= BytesToSectors(b)
  {
  }

  lemma {:induction false} NumTablesMono(a: nat, b: nat)
    requires a <= b
    ensures NumTables(a) <= NumTables(b)
  {
    if a > DirectPtrNum {
      DivMono(a - DirectPtrNum + 128 - 1, b - DirectPtrNum + 128 - 1, 128);
    }
  }

  lemma DivMono(x: int, y: int, m: int)
    requires 0 <= x <= y && m > 0
    ensures x / m <= y / m
  {
    if x / m > y / m {
      MulMono(x / m, y / m + 1, m);
    }
  }

  /** Position in the free list of the sector table `t` gets. */
  function TableIndex(oldN: nat, newN: nat, t: nat): nat
    requires oldN <= newN && NumTables(oldN) <= t
  {
    FirstEntryBelowTables(oldN, t);
    DirectNew(oldN, newN) + (t * 128 - FirstEntry(oldN)) + (t - NumTables(oldN))
  }

  lemma {:induction false} FirstEntryBelowTables(oldN: nat, t: nat)
    requires NumTables(oldN) <= t
    ensures FirstEntry(oldN) <= t * 128
  {
    MulMono(t, NumTables(oldN), 128);
  }

  /** Position in the free list of the sector new data block `k` gets. */
  function AllocIndex(oldN: nat, newN: nat, k: nat): nat
    requires oldN <= k < newN
  {
    if k < DirectPtrNum then k - oldN
    else
      var e := k - DirectPtrNum;
      var t := e / 128;
      EntryAfterFirst(oldN, k);
      DirectNew(oldN, newN) + (e - FirstEntry(oldN)) + (if t >= NumTables(oldN) then t - NumTables(oldN) + 1 else 0)
  }

  lemma EntryAfterFirst(oldN: nat, k: nat)
    requires oldN <= k && DirectPtrNum <= k
    ensures FirstEntry(oldN) <= k - DirectPtrNum
  {
  }

  /** The allocation positions of a growth are below Needed and pairwise
      distinct: no two new blocks, no two new tables, and no block and
      table share a free-list position. */
  lemma {:induction false} PlanInjective(oldN: nat, newN: nat)
    requires oldN <= newN
    ensures forall k :: oldN <= k < newN ==> AllocIndex(oldN, newN, k) < Needed(oldN, newN)
    ensures forall t :: NumTables(oldN) <= t < NumTables(newN) ==> TableIndex(oldN, newN, t) < Needed(oldN, newN)
    ensures forall k1, k2 :: oldN <= k1 < k2 < newN ==> AllocIndex(oldN, newN, k1) < AllocIndex(oldN, newN, k2)
    ensures forall t1, t2 :: NumTables(oldN) <= t1 < t2 ==> TableIndex(oldN, newN, t1) < TableIndex(oldN, newN, t2)
    ensures forall k, t :: oldN <= k < newN && NumTables(oldN) <= t ==> AllocIndex(oldN, newN, k) != TableIndex(oldN, newN, t)
  {
    forall k | oldN <= k < newN ensures AllocIndex(oldN, newN, k) < Needed(oldN, newN) {
      AllocBelowNeeded(oldN, newN, k);
    }
    forall t | NumTables(oldN) <= t < NumTables(newN) ensures TableIndex(oldN, newN, t) < Needed(oldN, newN) {
      TableBelowNeeded(oldN, newN, t);
    }
    forall k1, k2 | oldN <= k1 < k2 < newN ensures AllocIndex(oldN, newN, k1) < AllocIndex(oldN, newN, k2) {
      AllocMono(oldN, newN, k1, k2);
    }
    forall t1, t2 | NumTables(oldN) <= t1 < t2 ensures TableIndex(oldN, newN, t1) < TableIndex(oldN, newN, t2) {
      MulMono(t2, t1 + 1, 128);
    }
    forall k, t | oldN <= k < newN && NumTables(oldN) <= t ensures AllocIndex(oldN, newN, k) != TableIndex(oldN, newN, t) {
      AllocNotTable(oldN, newN, k, t);
    }
  }

  lemma {:induction false} AllocMono(oldN: nat, newN: nat, k1: nat, k2: nat)
    requires oldN <= k1 < k2 < newN
    ensures AllocIndex(oldN, newN, k1) < AllocIndex(oldN, newN, k2)
  {
    if k1 >= DirectPtrNum {
      DivMono(k1 - DirectPtrNum, k2 - DirectPtrNum, 128);
    } else if k2 >= DirectPtrNum {
      assert DirectNew(oldN, newN) == DirectPtrNum - oldN;
    }
  }

  lemma {:induction false} AllocNotTable(oldN: nat, newN: nat, k: nat, t: nat)
    requires oldN <= k < newN && NumTables(oldN) <= t
    ensures AllocIndex(oldN, newN, k) != TableIndex(oldN, newN, t)
  {
    FirstEntryBelowTables(oldN, t);
    if k >= DirectPtrNum {
      var e := k - DirectPtrNum;
      var tk := e / 128;
      assert DirectNew(oldN, newN) == if oldN < DirectPtrNum then DirectPtrNum - oldN else 0;
      if t <= tk {
        MulMono(tk, t, 128);
      } else {
        MulMono(t, tk + 1, 128);
      }
    }
  }

  lemma {:induction false} AllocBelowNeeded(oldN: nat, newN: nat, k: nat)
    requires oldN <= k < newN
    ensures AllocIndex(oldN, newN, k) < Needed(oldN, newN)
  {
    NumTablesMono(oldN, newN);
    if k >= DirectPtrNum {
      var e := k - DirectPtrNum;
      var tk := e / 128;
      TableOfBlock(k, newN);
      assert DirectNew(oldN, newN) == if oldN < DirectPtrNum then DirectPtrNum - oldN else 0;
      if oldN > DirectPtrNum {
        // Blocks of the old file fill its tables up to FirstEntry.
        assert NumTables(oldN) * 128 >= FirstEntry(oldN);
      }
    }
  }

  lemma {:induction false} TableBelowNeeded(oldN: nat, newN: nat, t: nat)
    requires oldN <= newN && NumTables(oldN) <= t < NumTables(newN)
    ensures TableIndex(oldN, newN, t) < Needed(oldN, newN)
  {
    FirstEntryBelowTables(oldN, t);
    assert newN > DirectPtrNum;
    assert DirectNew(oldN, newN) == if oldN < DirectPtrNum then DirectPtrNum - oldN else 0;
    MulMono(NumTables(newN) - 1, t, 128);
  }

  // ---------------------------------------------------------------------
  // Distinctness through an index map

  /** A sequence whose elements are drawn, at pairwise distinct positions,
      from a sequence without repeats has no repeats either. */
  lemma DistinctByIndex(s: seq<Sector>, r: seq<Sector>, sigma: nat -> nat)
    requires Distinct(r)
    requires forall i :: 0 <= i < |s| ==> sigma(i) < |r| && s[i] == r[sigma(i)]
    requires forall i, j :: 0 <= i < j < |s| ==> sigma(i) != sigma(j)
    ensures Distinct(s)
  {
  }

  // ---------------------------------------------------------------------
  // A grown file

  /** What growth of `d0` (on `disk0`, free list `free0`) into `d` (on
      `disk`) establishes: old blocks and tables are kept, new blocks and
      tables are the free-list sectors at their allocation positions, new
      blocks hold zeros and old blocks their old content. */
  ghost predicate GrownFrom(d0: DiskInode, disk0: Disk, free0: seq<Sector>, d: DiskInode, disk: Disk)
    requires WellFormed(d0) && WellFormed(d) && Sectors(d0) <= Sectors(d)
    requires |d.indirect| == |d0.indirect|
  {
    var oldN, newN := Sectors(d0), Sectors(d);
    && |free0| >= Needed(oldN, newN)
    && (forall k :: 0 <= k < oldN ==> BlockSector(d, disk, k) == BlockSector(d0, disk0, k))
    && (forall k :: oldN <= k < newN ==> BlockSector(d, disk, k) == free0[AllocIndex(oldN, newN, k)])
    && (forall t :: 0 <= t < NumTables(oldN) ==> d.indirect[t] == d0.indirect[t])
    && (forall t :: NumTables(oldN) <= t < NumTables(newN) ==> d.indirect[t] == free0[TableIndex(oldN, newN, t)])
    && (forall k :: oldN <= k < newN ==> BlockRead(disk, free0[AllocIndex(oldN, newN, k)]) == Zeros())
    && (forall k :: 0 <= k < oldN ==> BlockRead(disk, BlockSector(d0, disk0, k)) == BlockRead(disk0, BlockSector(d0, disk0, k)))
  }

  /** A file grown from a sound file is sound with the rest of the free
      list, keeps every old byte, and reads zero at every new byte. */
  lemma {:induction false} GrowSound(d0: DiskInode, disk0: Disk, free0: seq<Sector>, d: DiskInode, disk: Disk)
    requires Sound(d0, disk0, free0) && WellFormed(d) && d0.length <= d.length
    requires |d.indirect| == |d0.indirect| && Sectors(d0) <= Sectors(d)
    requires GrownFrom(d0, disk0, free0, d, disk)
    ensures Sound(d, disk, free0[Needed(Sectors(d0), Sectors(d))..])
    ensures forall p :: 0 <= p < d0.length ==> FileByte(d, disk, p) == FileByte(d0, disk0, p)
    ensures forall p :: d0.length <= p < d.length ==> FileByte(d, disk, p) == 0
  {
    GrowDistinct(d0, disk0, free0, d, disk);
    GrowBytes(d0, disk0, free0, d, disk);
  }

  /** The grown file's sectors and the rest of the free list are distinct. */
  lemma {:induction false} GrowDistinct(d0: DiskInode, disk0: Disk, free0: seq<Sector>, d: DiskInode, disk: Disk)
    requires Sound(d0, disk0, free0) && WellFormed(d) && d0.length <= d.length
    requires |d.indirect| == |d0.indirect| && Sectors(d0) <= Sectors(d)
    requires GrownFrom(d0, disk0, free0, d, disk)
    ensures Distinct(Footprint(d, disk) + free0[Needed(Sectors(d0), Sectors(d))..])
  {
    var oldN, newN := Sectors(d0), Sectors(d);
    var nt0, nt := NumTables(oldN), NumTables(newN);
    var need := Needed(oldN, newN);
    NumTablesMono(oldN, newN);
    PlanInjective(oldN, newN);
    var fp0 := Footprint(d0, disk0);
    var r := fp0 + free0;
    var m := |fp0|;
    assert m == oldN + nt0;
    var s := Footprint(d, disk) + free0[need..];
    assert |s| == newN + nt + |free0| - need;
    var sigma: nat -> nat := i => GrowPos(oldN, newN, i);
    forall i | 0 <= i < |s| ensures sigma(i) < |r| && s[i] == r[sigma(i)] {
      GrowPosMaps(d0, disk0, free0, d, disk, i);
    }
    GrowPosInjective(oldN, newN, |s|);
    DistinctByIndex(s, r, sigma);
  }

  lemma {:induction false} GrowPosMaps(d0: DiskInode, disk0: Disk, free0: seq<Sector>, d: DiskInode, disk: Disk, i: nat)
    requires WellFormed(d0) && WellFormed(d)
    requires |d.indirect| == |d0.indirect| && Sectors(d0) <= Sectors(d)
    requires GrownFrom(d0, disk0, free0, d, disk)
    requires i < |Footprint(d, disk)| + |free0| - Needed(Sectors(d0), Sectors(d))
    ensures var oldN, newN := Sectors(d0), Sectors(d);
            var r := Footprint(d0, disk0) + free0;
            var s := Footprint(d, disk) + free0[Needed(oldN, newN)..];
            GrowPos(oldN, newN, i) < |r| && s[i] == r[GrowPos(oldN, newN, i)]
  {
    var oldN, newN := Sectors(d0), Sectors(d);
    if i < oldN {
      GrowPosOld(d0, disk0, free0, d, disk, i);
    } else if i < newN {
      GrowPosNew(d0, disk0, free0, d, disk, i);
    } else if i < newN + NumTables(newN) {
      GrowPosTable(d0, disk0, free0, d, disk, i);
    } else {
      GrowPosRest(d0, disk0, free0, d, disk, i);
    }
  }

  /** An old data block of the grown file is where it was. */
  lemma {:induction false} GrowPosOld(d0: DiskInode, disk0: Disk, free0: seq<Sector>, d: DiskInode, disk: Disk, i: nat)
    requires WellFormed(d0) && WellFormed(d) && Sectors(d0) <= Sectors(d)
    requires |free0| >= Needed(Sectors(d0), Sectors(d)) && i < Sectors(d0)
    requires BlockSector(d, disk, i) == BlockSector(d0, disk0, i)
    ensures var oldN, newN := Sectors(d0), Sectors(d);
            var r := Footprint(d0, disk0) + free0;
            var s := Footprint(d, disk) + free0[Needed(oldN, newN)..];
            GrowPos(oldN, newN, i) < |r| && s[i] == r[GrowPos(oldN, newN, i)]
  {
    var oldN, newN := Sectors(d0), Sectors(d);
    FootprintAt(d, disk, free0[Needed(oldN, newN)..], i);
    FootprintAt(d0, disk0, free0, i);
  }

  /** A new data block of the grown file is the free-list sector at its
      allocation position. */
  lemma {:induction false} GrowPosNew(d0: DiskInode, disk0: Disk, free0: seq<Sector>, d: DiskInode, disk: Disk, i: nat)
    requires WellFormed(d0) && WellFormed(d) && Sectors(d0) <= i < Sectors(d)
    requires |free0| >= Needed(Sectors(d0), Sectors(d))
    requires BlockSector(d, disk, i) == free0[AllocIndex(Sectors(d0), Sectors(d), i)]
    ensures var oldN, newN := Sectors(d0), Sectors(d);
            var r := Footprint(d0, disk0) + free0;
            var s := Footprint(d, disk) + free0[Needed(oldN, newN)..];
            GrowPos(oldN, newN, i) < |r| && s[i] == r[GrowPos(oldN, newN, i)]
  {
    var oldN, newN := Sectors(d0), Sectors(d);
    AllocBelowNeeded(oldN, newN, i);
    var j := GrowPos(oldN, newN, i);
    assert j == |Footprint(d0, disk0)| + AllocIndex(oldN, newN, i);
    FootprintAt(d, disk, free0[Needed(oldN, newN)..], i);
    FootprintAt(d0, disk0, free0, j);
  }

  /** A table of the grown file: an old table, or a free-list sector. */
  lemma {:induction false} GrowPosTable(d0: DiskInode, disk0: Disk, free0: seq<Sector>, d: DiskInode, disk: Disk, i: nat)
    requires WellFormed(d0) && WellFormed(d)
    requires |d.indirect| == |d0.indirect| && Sectors(d0) <= Sectors(d)
    requires GrownFrom(d0, disk0, free0, d, disk)
    requires i < |Footprint(d, disk)| + |free0| - Needed(Sectors(d0), Sectors(d))
    requires Sectors(d) <= i < Sectors(d) + NumTables(Sectors(d))
    ensures var oldN, newN := Sectors(d0), Sectors(d);
            var r := Footprint(d0, disk0) + free0;
            var s := Footprint(d, disk) + free0[Needed(oldN, newN)..];
            GrowPos(oldN, newN, i) < |r| && s[i] == r[GrowPos(oldN, newN, i)]
  {
    var oldN, newN := Sectors(d0), Sectors(d);
    NumTablesMono(oldN, newN);
    FootprintAt(d, disk, free0[Needed(oldN, newN)..], i);
    FootprintAt(d0, disk0, free0, GrowPos(oldN, newN, i));
    if i - newN >= NumTables(oldN) {
      TableBelowNeeded(oldN, newN, i - newN);
    }
  }

  /** Past the grown footprint: the free-list sectors growth did not take. */
  lemma {:induction false} GrowPosRest(d0: DiskInode, disk0: Disk, free0: seq<Sector>, d: DiskInode, disk: Disk, i: nat)
    requires WellFormed(d0) && WellFormed(d)
    requires |d.indirect| == |d0.indirect| && Sectors(d0) <= Sectors(d)
    requires GrownFrom(d0, disk0, free0, d, disk)
    requires i < |Footprint(d, disk)| + |free0| - Needed(Sectors(d0), Sectors(d))
    requires Sectors(d) + NumTables(Sectors(d)) <= i
    ensures var oldN, newN := Sectors(d0), Sectors(d);
            var r := Footprint(d0, disk0) + free0;
            var s := Footprint(d, disk) + free0[Needed(oldN, newN)..];
            GrowPos(oldN, newN, i) < |r| && s[i] == r[GrowPos(oldN, newN, i)]
  {
    var oldN, newN := Sectors(d0), Sectors(d);
    NumTablesMono(oldN, newN);
    FootprintAt(d, disk, free0[Needed(oldN, newN)..], i);
    FootprintAt(d0, disk0, free0, GrowPos(oldN, newN, i));
    var nt := NumTables(newN);
    assert free0[Needed(oldN, newN)..][i - newN - nt] == free0[Needed(oldN, newN) + (i - newN - nt)];
  }

  /** Entry `i` of a file's footprint followed by `rest`: a data block, a
      table, or an entry of `rest`. */
  lemma FootprintAt(d: DiskInode, disk: Disk, rest: seq<Sector>, i: nat)
    requires WellFormed(d) && i < |Footprint(d, disk)| + |rest|
    ensures var s, n, nt := Footprint(d, disk) + rest, Sectors(d), NumTables(Sectors(d));
            && |Footprint(d, disk)| == n + nt
            && (i < n ==> s[i] == BlockSector(d, disk, i))
            && (n <= i < n + nt ==> s[i] == d.indirect[i - n])
            && (n + nt <= i ==> s[i] == rest[i - n - nt])
  {
  }

  /** Where entry `i` of the grown file's footprint followed by the rest of
      the free list comes from, as a position in the old footprint followed
      by the old free list. */
  function GrowPos(oldN: nat, newN: nat, i: nat): nat
    requires oldN <= newN
  {
    var m, nt0, nt := oldN + NumTables(oldN), NumTables(oldN), NumTables(newN);
    if i < oldN then i
    else if i < newN then m + AllocIndex(oldN, newN, i)
    else if i < newN + nt0 then oldN + (i - newN)
    else if i < newN + nt then m + TableIndex(oldN, newN, i - newN)
    else m + Needed(oldN, newN) + (i - newN - nt)
  }

  lemma {:induction false} GrowPosInjective(oldN: nat, newN: nat, len: nat)
    requires oldN <= newN
    ensures forall i, j :: 0 <= i < j < len ==> GrowPos(oldN, newN, i) != GrowPos(oldN, newN, j)
  {
    NumTablesMono(oldN, newN);
    PlanInjective(oldN, newN);
    var nt0, nt := NumTables(oldN), NumTables(newN);
    forall i, j | 0 <= i < j < len ensures GrowPos(oldN, newN, i) != GrowPos(oldN, newN, j) {
      if oldN <= i < newN && newN + nt0 <= j < newN + nt {
        assert GrowPos(oldN, newN, j) == oldN + nt0 + TableIndex(oldN, newN, j - newN);
      }
    }
  }

  /** The grown file keeps its old bytes, reads zero at new bytes, and is
      zero past its end. */
  lemma {:induction false} GrowBytes(d0: DiskInode, disk0: Disk, free0: seq<Sector>, d: DiskInode, disk: Disk)
    requires WellFormed(d0) && TailZero(d0, disk0) && WellFormed(d) && d0.length <= d.length
    requires |d.indirect| == |d0.indirect| && Sectors(d0) <= Sectors(d)
    requires GrownFrom(d0, disk0, free0, d, disk)
    ensures forall p :: 0 <= p < d0.length ==> FileByte(d, disk, p) == FileByte(d0, disk0, p)
    ensures forall p :: d0.length <= p < d.length ==> FileByte(d, disk, p) == 0
    ensures TailZero(d, disk)
  {
    forall p | 0 <= p < d0.length ensures FileByte(d, disk, p) == FileByte(d0, disk0, p) {
      GrowOldByte(d0, disk0, free0, d, disk, p);
    }
    forall p | d0.length <= p < d.length ensures FileByte(d, disk, p) == 0 {
      GrowNewByte(d0, disk0, free0, d, disk, p);
    }
    forall p | d.length <= p < Sectors(d) * 512
      ensures BlockRead(disk, BlockSector(d, disk, p / 512))[p % 512] == 0
    {
      GrowNewByte(d0, disk0, free0, d, disk, p);
    }
  }

  /** A byte of the old file keeps its value. */
  lemma {:induction false} GrowOldByte(d0: DiskInode, disk0: Disk, free0: seq<Sector>, d: DiskInode, disk: Disk, p: int)
    requires WellFormed(d0) && TailZero(d0, disk0) && WellFormed(d) && d0.length <= d.length
    requires |d.indirect| == |d0.indirect| && Sectors(d0) <= Sectors(d)
    requires GrownFrom(d0, disk0, free0, d, disk)
    requires 0 <= p < d0.length
    ensures FileByte(d, disk, p) == FileByte(d0, disk0, p)
  {
    BlockOfOffset(p, |d0.indirect|);
    BlockOfLength(p, d0);
    var k := p / 512;
    assert BlockSector(d, disk, k) == BlockSector(d0, disk0, k);
  }

  /** A byte past the old end reads zero: it lies in a new block, or in the
      old last block past the old end. */
  lemma {:induction false} GrowNewByte(d0: DiskInode, disk0: Disk, free0: seq<Sector>, d: DiskInode, disk: Disk, p: int)
    requires WellFormed(d0) && TailZero(d0, disk0) && WellFormed(d) && d0.length <= d.length
    requires |d.indirect| == |d0.indirect| && Sectors(d0) <= Sectors(d)
    requires GrownFrom(d0, disk0, free0, d, disk)
    requires d0.length <= p < Sectors(d) * 512
    ensures BlockRead(disk, BlockSector(d, disk, p / 512))[p % 512] == 0
    ensures p < d.length ==> FileByte(d, disk, p) == 0
  {
    BlockOfLength(p, d);
    var k := p / 512;
    if p < d.length {
      BlockOfOffset(p, |d.indirect|);
      assert ByteToSector(d, disk, p) == BlockSector(d, disk, k);
    }
    if k < Sectors(d0) {
      MulMono(Sectors(d0), k + 1, 512);
      assert p < Sectors(d0) * 512;
      var x := BlockSector(d0, disk0, k);
      assert BlockSector(d, disk, k) == x;
      assert BlockRead(disk, x) == BlockRead(disk0, x);
      assert BlockRead(disk0, BlockSector(d0, disk0, p / 512))[p % 512] == 0;
    } else {
      AllocBelowNeeded(Sectors(d0), Sectors(d), k);
      var x := free0[AllocIndex(Sectors(d0), Sectors(d), k)];
      assert BlockSector(d, disk, k) == x;
      assert BlockRead(disk, x) == Zeros();
    }
  }

  /** The block of an offset below a file's length is one of its blocks;
      an offset past the length in its last block lies in block n - 1. */
  lemma {:induction false} BlockOfLength(p: int, d: DiskInode)
    requires WellFormed(d) && 0 <= p < Sectors(d) * 512
    ensures p / 512 < Sectors(d)
    ensures p >= d.length ==> p / 512 == Sectors(d) - 1
  {
    var k := p / 512;
    if k >= Sectors(d) {
      MulMono(k, Sectors(d), 512);
    }
    if p >= d.length && k < Sectors(d) - 1 {
      MulMono(Sectors(d) - 1, k + 1, 512);
    }
  }
}
