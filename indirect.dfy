/** The index-table loop shared by inode_create and byte_to_sector_write,
    at the level of values. Growing a file from `oldN` to `newN` data
    blocks (newN > DIRECT_PTR_NUM) visits tables FirstEntry(oldN) / 128 up
    to NumTables(newN) - 1; a table the old file already has keeps its first
    entries and is read back from its sector, a new table is allocated and
    starts zeroed; the missing entries are allocated and zero-filled, and
    the table is written back. This module says how many free-list sectors
    the loop has taken before each table, and what one pass establishes. */
module Indirect {
  import opened Device
  import opened Wrappers
  import opened Layout
  import opened Descriptor
  import opened Growth

  function Max(a: int, b: int): int {
    if a < b then b else a
  }

  /** The first table the loop visits. */
  function FirstTable(oldN: nat): nat {
    FirstEntry(oldN) / 128
  }

  /** Free-list sectors taken by growth before the loop reaches table `t`. */
  function Consumed(oldN: nat, newN: nat, t: nat): nat
    requires oldN <= newN
  {
    if t < NumTables(oldN) then DirectNew(oldN, newN)
    else if t < NumTables(newN) then TableIndex(oldN, newN, t)
    else Needed(oldN, newN)
  }

  /** bytes_left_end: entries of table `t` the old file already uses. */
  function Kept(oldN: nat, t: nat): nat {
    if t < NumTables(oldN) then FirstEntry(oldN) % 128 else 0
  }

  /** n_table_entry: entries of table `t` the grown file uses. */
  function Filled(newN: nat, t: nat): int {
    Min(newN - DirectPtrNum - t * 128, 128)
  }

  /** Whether table `t` is new, so that the loop allocates its sector. */
  predicate NewTable(oldN: nat, t: nat) {
    t >= NumTables(oldN)
  }

  /** The position in the free list of the first entry of table `t`. */
  function EntryBase(oldN: nat, newN: nat, t: nat): nat
    requires oldN <= newN
  {
    Consumed(oldN, newN, t) + (if NewTable(oldN, t) then 1 else 0)
  }

  // ---------------------------------------------------------------------
  // Counting

  /** Where the loop starts: the first table is the old file's last,
      partly used table, or the first new table; nothing is taken yet. */
  lemma {:induction false} LoopStart(oldN: nat, newN: nat)
    requires oldN <= newN && DirectPtrNum < newN
    ensures FirstTable(oldN) <= NumTables(oldN)
    ensures FirstTable(oldN) < NumTables(oldN) ==>
              FirstTable(oldN) + 1 == NumTables(oldN) && FirstEntry(oldN) % 128 != 0
    ensures FirstEntry(oldN) == FirstTable(oldN) * 128 + FirstEntry(oldN) % 128
    ensures FirstEntry(oldN) <= newN - DirectPtrNum
    ensures Consumed(oldN, newN, FirstTable(oldN)) == DirectNew(oldN, newN)
  {
    var fe := FirstEntry(oldN);
    var t0 := fe / 128;
    DivUnique(fe, 128, t0, fe % 128);
    if oldN > DirectPtrNum {
      assert NumTables(oldN) == (fe + 128 - 1) / 128;
      if fe % 128 == 0 {
        DivUnique(fe + 128 - 1, 128, t0, 128 - 1);
      } else {
        DivUnique(fe + 128 - 1, 128, t0 + 1, fe % 128 - 1);
      }
    }
    if t0 >= NumTables(oldN) {
      NumTablesMono(oldN, newN);
      if t0 >= NumTables(newN) {
        assert newN - DirectPtrNum <= fe;
      }
    }
  }

  /** One pass over table `t`: its entries in use before and after, and
      what is taken in all. */
  lemma {:induction false} LoopStep(oldN: nat, newN: nat, t: nat)
    requires oldN <= newN && DirectPtrNum < newN
    requires FirstTable(oldN) <= t && t * 128 < newN - DirectPtrNum
    ensures t < NumTables(newN)
    ensures !NewTable(oldN, t) ==> t == FirstTable(oldN)
    ensures 0 <= Kept(oldN, t) <= Filled(newN, t) <= 128
    ensures DirectPtrNum + t * 128 + Filled(newN, t) == Min(DirectPtrNum + (t + 1) * 128, newN)
    ensures NewTable(oldN, t) ==> TableIndex(oldN, newN, t) == Consumed(oldN, newN, t)
    ensures EntryBase(oldN, newN, t) + Filled(newN, t) - Kept(oldN, t) == Consumed(oldN, newN, t + 1)
    ensures Consumed(oldN, newN, t) <= Consumed(oldN, newN, t + 1) <= Needed(oldN, newN)
    ensures DirectNew(oldN, newN) <= Consumed(oldN, newN, t)
    ensures oldN <= Max(oldN, DirectPtrNum) <= DirectPtrNum + t * 128 + Kept(oldN, t)
    ensures oldN > DirectPtrNum + t * 128 ==> oldN == DirectPtrNum + t * 128 + Kept(oldN, t)
  {
    LoopStart(oldN, newN);
    var nt0, nt1 := NumTables(oldN), NumTables(newN);
    if t >= nt1 {
      MulMono(t, nt1, 128);
    }
    NumTablesMono(oldN, newN);
    if t + 1 < nt1 {
      MulMono(nt1 - 1, t + 1, 128);
    }
    if t >= nt0 {
      FirstEntryBelowTables(oldN, t);
    }
  }

  /** The free-list position of a new entry of table `t`. */
  lemma {:induction false} EntryIndex(oldN: nat, newN: nat, t: nat, k: nat)
    requires oldN <= newN && DirectPtrNum < newN
    requires FirstTable(oldN) <= t && t * 128 < newN - DirectPtrNum
    requires DirectPtrNum + t * 128 + Kept(oldN, t) <= k < DirectPtrNum + t * 128 + Filled(newN, t)
    ensures oldN <= k < newN
    ensures AllocIndex(oldN, newN, k) == EntryBase(oldN, newN, t) + (k - DirectPtrNum - t * 128) - Kept(oldN, t)
    ensures AllocIndex(oldN, newN, k) < Consumed(oldN, newN, t + 1)
  {
    LoopStep(oldN, newN, t);
    LoopStart(oldN, newN);
    var j := k - DirectPtrNum - t * 128;
    DivUnique(t * 128 + j, 128, t, j);
    if NewTable(oldN, t) {
      FirstEntryBelowTables(oldN, t);
    }
  }

  /** The loop stops after the last table the grown file needs, having
      taken exactly what growth needs. */
  lemma {:induction false} LoopEnd(oldN: nat, newN: nat, t: nat)
    requires oldN <= newN && DirectPtrNum < newN
    requires FirstTable(oldN) <= t && t * 128 >= newN - DirectPtrNum
    requires t > FirstTable(oldN) ==> (t - 1) * 128 < newN - DirectPtrNum
    ensures t == NumTables(newN)
    ensures Consumed(oldN, newN, t) == Needed(oldN, newN)
  {
    LoopStart(oldN, newN);
    var iso := newN - DirectPtrNum;
    assert NumTables(newN) == (iso + 128 - 1) / 128;
    if t > FirstTable(oldN) {
      assert iso + 128 - 1 == t * 128 + (iso - t * 128 + 128 - 1);
      DivUnique(iso + 128 - 1, 128, t, iso - t * 128 + 128 - 1);
    } else {
      assert iso == t * 128;
      DivUnique(iso + 128 - 1, 128, t, 128 - 1);
    }
    NumTablesMono(oldN, newN);
  }

  /** Blocks of tables before `t` got free-list positions below what was
      taken before table `t`. */
  lemma {:induction false} EarlierIndex(oldN: nat, newN: nat, t: nat, k: nat)
    requires oldN <= newN && DirectPtrNum < newN
    requires FirstTable(oldN) <= t && t * 128 < newN - DirectPtrNum
    requires Max(oldN, DirectPtrNum) <= k < DirectPtrNum + t * 128
    ensures AllocIndex(oldN, newN, k) < Consumed(oldN, newN, t)
  {
    LoopStart(oldN, newN);
    LoopStep(oldN, newN, t);
    var e := k - DirectPtrNum;
    DivUnique(e, 128, e / 128, e % 128);
    FirstEntryBelowTables(oldN, t);
  }

  /** So did the tables before `t`. */
  lemma {:induction false} EarlierTable(oldN: nat, newN: nat, t: nat, u: nat)
    requires oldN <= newN && DirectPtrNum < newN
    requires FirstTable(oldN) <= t && t * 128 < newN - DirectPtrNum
    requires NumTables(oldN) <= u < t
    ensures TableIndex(oldN, newN, u) < Consumed(oldN, newN, t)
  {
    LoopStep(oldN, newN, t);
    MulMono(t, u + 1, 128);
  }

  // ---------------------------------------------------------------------
  // The loop's state

  /** The table pointers before table `t`: the old file's tables, then the
      new tables the loop allocated, then the rest untouched. */
  ghost predicate PointersDone(d0: DiskInode, free0: seq<Sector>, oldN: nat, newN: nat, d: DiskInode, t: nat)
    requires oldN <= newN
  {
    && |d.indirect| == |d0.indirect|
    && (forall u :: 0 <= u < |d.indirect| && (u < NumTables(oldN) || u >= t) ==> d.indirect[u] == d0.indirect[u])
    && (forall u :: NumTables(oldN) <= u < t && u < |d.indirect| ==>
          TableIndex(oldN, newN, u) < |free0| && d.indirect[u] == free0[TableIndex(oldN, newN, u)])
  }

  /** The blocks before table `t`: every new one is the free-list sector at
      its allocation position and holds zeros; every old one is where it
      was. */
  ghost predicate BlocksDone(d0: DiskInode, disk0: Disk, free0: seq<Sector>, oldN: nat, newN: nat, d: DiskInode, disk: Disk, t: nat)
    requires Shaped(d0) && Shaped(d) && |d.indirect| == |d0.indirect| && oldN <= newN <= MaxBlocks(|d0.indirect|)
  {
    && (forall k :: Max(oldN, DirectPtrNum) <= k < Min(DirectPtrNum + t * 128, newN) ==> NewBlockDone(free0, oldN, newN, d, disk, k))
    && (forall k :: DirectPtrNum <= k < oldN ==> BlockSector(d, disk, k) == BlockSector(d0, disk0, k))
  }

  /** New block `k` is the free-list sector at its allocation position and
      holds zeros. */
  ghost predicate NewBlockDone(free0: seq<Sector>, oldN: nat, newN: nat, d: DiskInode, disk: Disk, k: nat)
    requires Shaped(d) && oldN <= k < newN <= MaxBlocks(|d.indirect|)
  {
    && AllocIndex(oldN, newN, k) < |free0|
    && BlockSector(d, disk, k) == free0[AllocIndex(oldN, newN, k)]
    && BlockRead(disk, free0[AllocIndex(oldN, newN, k)]) == Zeros()
  }

  /** The old file's tables and the free list are distinct sectors. */
  ghost predicate Apart(d0: DiskInode, oldN: nat, free0: seq<Sector>)
    requires NumTables(oldN) <= |d0.indirect|
  {
    Distinct(d0.indirect[..NumTables(oldN)] + free0)
  }

  lemma ApartFacts(d0: DiskInode, oldN: nat, free0: seq<Sector>)
    requires NumTables(oldN) <= |d0.indirect| && Apart(d0, oldN, free0)
    ensures Distinct(free0)
    ensures forall u, x :: 0 <= u < NumTables(oldN) && 0 <= x < |free0| ==> d0.indirect[u] != free0[x]
    ensures forall u, v :: 0 <= u < v < NumTables(oldN) ==> d0.indirect[u] != d0.indirect[v]
  {
    var all := d0.indirect[..NumTables(oldN)] + free0;
    var n := NumTables(oldN);
    forall i, j | 0 <= i < j < |free0| ensures free0[i] != free0[j] {
      assert all[n + i] == free0[i] && all[n + j] == free0[j];
    }
    forall u, x | 0 <= u < n && 0 <= x < |free0| ensures d0.indirect[u] != free0[x] {
      assert all[u] == d0.indirect[u] && all[n + x] == free0[x];
    }
    forall u, v | 0 <= u < v < n ensures d0.indirect[u] != d0.indirect[v] {
      assert all[u] == d0.indirect[u] && all[v] == d0.indirect[v];
    }
  }

  // ---------------------------------------------------------------------
  // One pass

  /** The states of one pass over a table: the descriptor and device before
      it, the descriptor once the table's pointer is set, the table as
      found and as filled, the device once the new entries are
      zero-filled, and once the table is written back. */
  datatype Pass = Pass(d1: DiskInode, disk1: Disk, d2: DiskInode, table0: Table, table1: Table, diskA: Disk, disk2: Disk)

  /** The growth plan is in range at table `t` and the free list can serve
      the pass over it. */
  ghost predicate Plan(d0: DiskInode, free0: seq<Sector>, oldN: nat, newN: nat, t: nat) {
    && Shaped(d0) && oldN <= newN <= MaxBlocks(|d0.indirect|) && DirectPtrNum < newN
    && FirstTable(oldN) <= t && t * 128 < newN - DirectPtrNum
    && NumTables(oldN) <= |d0.indirect| && Apart(d0, oldN, free0)
    && Consumed(oldN, newN, t + 1) <= |free0|
  }

  /** `p` is a pass over table `t` as the loop body performs it. */
  ghost predicate PassOver(d0: DiskInode, free0: seq<Sector>, oldN: nat, newN: nat, t: nat, p: Pass)
    requires Plan(d0, free0, oldN, newN, t)
  {
    PassTable(d0, free0, oldN, newN, t, p) && PassDisk(d0, free0, oldN, newN, t, p)
  }

  /** The table of a pass: its pointer is set when it is new, it is found
      empty or read from its sector, and its missing entries are the next
      free-list sectors. */
  ghost predicate PassTable(d0: DiskInode, free0: seq<Sector>, oldN: nat, newN: nat, t: nat, p: Pass)
    requires Plan(d0, free0, oldN, newN, t)
  {
    LoopStep(oldN, newN, t);
    var base := EntryBase(oldN, newN, t);
    && Shaped(p.d1) && PointersDone(d0, free0, oldN, newN, p.d1, t) && t < |p.d1.indirect|
    && p.d2 == (if NewTable(oldN, t) then p.d1.(indirect := p.d1.indirect[t := free0[Consumed(oldN, newN, t)]]) else p.d1)
    && p.table0 == (if NewTable(oldN, t) then EmptyTable() else TableAt(p.disk1, p.d1.indirect[t]))
    && (forall j :: 0 <= j < 128 && !(Kept(oldN, t) <= j < Filled(newN, t)) ==> p.table1[j] == p.table0[j])
    && (forall j :: Kept(oldN, t) <= j < Filled(newN, t) ==> p.table1[j] == free0[base + j - Kept(oldN, t)])
  }

  /** The device through a pass: the sectors of the new entries are
      zero-filled, nothing else changes, then the table is written back. */
  ghost predicate PassDisk(d0: DiskInode, free0: seq<Sector>, oldN: nat, newN: nat, t: nat, p: Pass)
    requires Plan(d0, free0, oldN, newN, t)
  {
    LoopStep(oldN, newN, t);
    var base, stop := EntryBase(oldN, newN, t), Consumed(oldN, newN, t + 1);
    && t < |p.d2.indirect|
    && (forall i :: base <= i < stop ==> BlockRead(p.diskA, free0[i]) == Zeros())
    && (forall x :: x !in free0[base..stop] ==> BlockRead(p.diskA, x) == BlockRead(p.disk1, x))
    && p.disk2 == p.diskA[p.d2.indirect[t] := EncodeTable(p.table1)]
  }

  /** A pass keeps the loop's state: afterwards it holds before table t + 1. */
  lemma {:induction false} TableStep(d0: DiskInode, disk0: Disk, free0: seq<Sector>, oldN: nat, newN: nat, t: nat, p: Pass)
    requires Plan(d0, free0, oldN, newN, t) && PassOver(d0, free0, oldN, newN, t, p)
    requires BlocksDone(d0, disk0, free0, oldN, newN, p.d1, p.disk1, t)
    ensures Shaped(p.d2) && PointersDone(d0, free0, oldN, newN, p.d2, t + 1)
    ensures BlocksDone(d0, disk0, free0, oldN, newN, p.d2, p.disk2, t + 1)
  {
    LoopStep(oldN, newN, t);
    var lo := DirectPtrNum + t * 128;
    var hi := lo + Filled(newN, t);
    forall k | Max(oldN, DirectPtrNum) <= k < Min(DirectPtrNum + (t + 1) * 128, newN)
      ensures NewBlockDone(free0, oldN, newN, p.d2, p.disk2, k)
    {
      if k < lo {
        EarlierBlock(d0, disk0, free0, oldN, newN, t, p, k);
      } else {
        NewEntry(d0, free0, oldN, newN, t, p, k);
      }
    }
    forall k | DirectPtrNum <= k < oldN
      ensures BlockSector(p.d2, p.disk2, k) == BlockSector(d0, disk0, k)
    {
      if k < lo {
        EarlierBlock(d0, disk0, free0, oldN, newN, t, p, k);
      } else {
        KeptEntry(d0, free0, oldN, newN, t, p, k);
      }
    }
  }

  /** The sector the pass writes the table to is neither a block of the
      grown file given out before the entries of this pass, nor an earlier
      table, nor among the sectors this pass zero-fills. */
  lemma {:induction false} TableSectorApart(d0: DiskInode, free0: seq<Sector>, oldN: nat, newN: nat, t: nat, p: Pass)
    requires Plan(d0, free0, oldN, newN, t) && PassOver(d0, free0, oldN, newN, t, p)
    ensures forall u :: 0 <= u < t ==> p.d2.indirect[t] != p.d1.indirect[u]
    ensures forall i :: EntryBase(oldN, newN, t) <= i < Consumed(oldN, newN, t + 1) ==> p.d2.indirect[t] != free0[i]
    ensures !NewTable(oldN, t) ==> p.d2.indirect[t] !in free0
    ensures NewTable(oldN, t) ==> p.d2.indirect[t] == free0[TableIndex(oldN, newN, t)]
  {
    LoopStep(oldN, newN, t);
    ApartFacts(d0, oldN, free0);
    forall u | 0 <= u < t ensures p.d2.indirect[t] != p.d1.indirect[u] {
      if NewTable(oldN, t) && u >= NumTables(oldN) {
        EarlierTable(oldN, newN, t, u);
      }
    }
  }

  /** A block of an earlier table: its table is neither written nor
      zero-filled by the pass, and its own sector is not the table's. */
  lemma {:induction false} EarlierBlock(d0: DiskInode, disk0: Disk, free0: seq<Sector>, oldN: nat, newN: nat, t: nat, p: Pass, k: nat)
    requires Plan(d0, free0, oldN, newN, t) && PassOver(d0, free0, oldN, newN, t, p)
    requires BlocksDone(d0, disk0, free0, oldN, newN, p.d1, p.disk1, t)
    requires DirectPtrNum <= k < DirectPtrNum + t * 128
    ensures k < newN && Shaped(p.d2)
    ensures BlockSector(p.d2, p.disk2, k) == BlockSector(p.d1, p.disk1, k)
    ensures Max(oldN, DirectPtrNum) <= k ==> NewBlockDone(free0, oldN, newN, p.d2, p.disk2, k)
  {
    LoopStep(oldN, newN, t);
    var u := (k - DirectPtrNum) / 128;
    TableOfBlockInRange(k, |d0.indirect|);
    DivUnique(k - DirectPtrNum, 128, u, (k - DirectPtrNum) % 128);
    if u >= t {
      MulMono(u, t, 128);
    }
    EarlierTableKept(d0, free0, oldN, newN, t, p, u);
    SameTableSector(p.d1, p.disk1, p.d2, p.disk2, k);
    if Max(oldN, DirectPtrNum) <= k {
      assert NewBlockDone(free0, oldN, newN, p.d1, p.disk1, k);
      EarlierZero(d0, free0, oldN, newN, t, p, k);
    }
  }

  /** An earlier table keeps its pointer and its sector's content. */
  lemma {:induction false} EarlierTableKept(d0: DiskInode, free0: seq<Sector>, oldN: nat, newN: nat, t: nat, p: Pass, u: nat)
    requires Plan(d0, free0, oldN, newN, t) && PassOver(d0, free0, oldN, newN, t, p)
    requires u < t
    ensures u < |p.d1.indirect| == |p.d2.indirect|
    ensures p.d2.indirect[u] == p.d1.indirect[u]
    ensures BlockRead(p.disk2, p.d1.indirect[u]) == BlockRead(p.disk1, p.d1.indirect[u])
  {
    LoopStep(oldN, newN, t);
    ApartFacts(d0, oldN, free0);
    TableSectorApart(d0, free0, oldN, newN, t, p);
    var base, stop := EntryBase(oldN, newN, t), Consumed(oldN, newN, t + 1);
    var s := p.d1.indirect[u];
    if u >= NumTables(oldN) {
      EarlierTable(oldN, newN, t, u);
    }
    assert s !in free0[base..stop];
  }

  /** A new block of an earlier table is neither the table's sector nor
      zero-filled again, so it still holds zeros. */
  lemma {:induction false} EarlierZero(d0: DiskInode, free0: seq<Sector>, oldN: nat, newN: nat, t: nat, p: Pass, k: nat)
    requires Plan(d0, free0, oldN, newN, t) && PassOver(d0, free0, oldN, newN, t, p)
    requires Max(oldN, DirectPtrNum) <= k < DirectPtrNum + t * 128
    requires AllocIndex(oldN, newN, k) < |free0| && BlockRead(p.disk1, free0[AllocIndex(oldN, newN, k)]) == Zeros()
    ensures BlockRead(p.disk2, free0[AllocIndex(oldN, newN, k)]) == Zeros()
  {
    LoopStep(oldN, newN, t);
    ApartFacts(d0, oldN, free0);
    TableSectorApart(d0, free0, oldN, newN, t, p);
    var base, stop := EntryBase(oldN, newN, t), Consumed(oldN, newN, t + 1);
    EarlierIndex(oldN, newN, t, k);
    var a := free0[AllocIndex(oldN, newN, k)];
    assert a !in free0[base..stop];
    if NewTable(oldN, t) {
      AllocNotTable(oldN, newN, k, t);
    }
    assert a != p.d2.indirect[t];
  }

  /** Block `k` keeps its sector when its table keeps its pointer and its
      sector's content. */
  lemma SameTableSector(d1: DiskInode, disk1: Disk, d2: DiskInode, disk2: Disk, k: nat)
    requires Shaped(d1) && Shaped(d2) && |d1.indirect| == |d2.indirect|
    requires DirectPtrNum <= k < MaxBlocks(|d1.indirect|)
    requires (k - DirectPtrNum) / 128 < |d1.indirect|
    requires d2.indirect[(k - DirectPtrNum) / 128] == d1.indirect[(k - DirectPtrNum) / 128]
    requires BlockRead(disk2, d1.indirect[(k - DirectPtrNum) / 128]) == BlockRead(disk1, d1.indirect[(k - DirectPtrNum) / 128])
    ensures BlockSector(d2, disk2, k) == BlockSector(d1, disk1, k)
  {
  }

  /** A new entry of table `t`: the next free-list sector, zero-filled. */
  lemma {:induction false} NewEntry(d0: DiskInode, free0: seq<Sector>, oldN: nat, newN: nat, t: nat, p: Pass, k: nat)
    requires Plan(d0, free0, oldN, newN, t) && PassOver(d0, free0, oldN, newN, t, p)
    requires DirectPtrNum + t * 128 <= k < DirectPtrNum + t * 128 + Filled(newN, t)
    requires Max(oldN, DirectPtrNum) <= k
    ensures k < newN && Shaped(p.d2)
    ensures NewBlockDone(free0, oldN, newN, p.d2, p.disk2, k)
  {
    LoopStep(oldN, newN, t);
    var lo := DirectPtrNum + t * 128;
    var j := k - lo;
    EntryIndex(oldN, newN, t, k);
    var a := AllocIndex(oldN, newN, k);
    var base := EntryBase(oldN, newN, t);
    assert p.table1[j] == free0[a];
    TableSectorApart(d0, free0, oldN, newN, t, p);
    assert free0[a] != p.d2.indirect[t];
    assert BlockRead(p.diskA, free0[a]) == Zeros();
    WrittenEntry(p.d2, p.diskA, p.table1, t, k, free0[a]);
  }

  /** Once table `t` is written with `table`, block `k` is its entry, and a
      sector other than the table's is left as it was. */
  lemma WrittenEntry(d: DiskInode, disk: Disk, table: Table, t: nat, k: nat, x: Sector)
    requires Shaped(d) && t < |d.indirect| && DirectPtrNum + t * 128 <= k < DirectPtrNum + t * 128 + 128
    requires table[k - DirectPtrNum - t * 128] == x
    ensures k < MaxBlocks(|d.indirect|)
    ensures BlockSector(d, disk[d.indirect[t] := EncodeTable(table)], k) == x
    ensures x != d.indirect[t] ==> BlockRead(disk[d.indirect[t] := EncodeTable(table)], x) == BlockRead(disk, x)
  {
    EntryOfTable(d, disk[d.indirect[t] := EncodeTable(table)], t, k);
    ReadBack(disk, d.indirect[t], table, k - DirectPtrNum - t * 128);
  }

  /** An entry the old file already used in table `t` is kept. */
  lemma {:induction false} KeptEntry(d0: DiskInode, free0: seq<Sector>, oldN: nat, newN: nat, t: nat, p: Pass, k: nat)
    requires Plan(d0, free0, oldN, newN, t) && PassOver(d0, free0, oldN, newN, t, p)
    requires DirectPtrNum + t * 128 <= k < oldN
    ensures Shaped(p.d2) && k < MaxBlocks(|p.d2.indirect|)
    ensures BlockSector(p.d2, p.disk2, k) == BlockSector(p.d1, p.disk1, k)
  {
    LoopStep(oldN, newN, t);
    var j := k - DirectPtrNum - t * 128;
    EntryOfTable(p.d1, p.disk1, t, k);
    assert p.table1[j] == p.table0[j];
    WrittenEntry(p.d2, p.diskA, p.table1, t, k, BlockSector(p.d1, p.disk1, k));
  }

  /** Data block `k` of table `t` is entry k - D - 128 t of that table. */
  lemma {:induction false} EntryOfTable(d: DiskInode, disk: Disk, t: nat, k: nat)
    requires Shaped(d) && t < |d.indirect| && DirectPtrNum + t * 128 <= k < DirectPtrNum + t * 128 + 128
    ensures k < MaxBlocks(|d.indirect|)
    ensures BlockSector(d, disk, k) == TableAt(disk, d.indirect[t])[k - DirectPtrNum - t * 128]
  {
    DivUnique(k - DirectPtrNum, 128, t, k - DirectPtrNum - t * 128);
    MulMono(|d.indirect| - 1, t, 128);
  }

  /** An entry of a table written to a sector reads back as written. */
  lemma ReadBack(disk: Disk, s: Sector, table: Table, j: nat)
    requires j < 128
    ensures TableAt(disk[s := EncodeTable(table)], s)[j] == table[j]
  {
    DecodeEncode(table);
  }

  // ---------------------------------------------------------------------
  // The whole of growth

  /** The state of growth before table `t`: table pointers and blocks as
      PointersDone and BlocksDone say, the old file's direct pointers kept,
      its new direct blocks allocated and zeroed, and every old block
      holding its old content. */
  ghost predicate TablesDone(d0: DiskInode, disk0: Disk, free0: seq<Sector>, oldN: nat, newN: nat, d: DiskInode, disk: Disk, t: nat)
    requires Shaped(d0) && Shaped(d) && |d.indirect| == |d0.indirect| && oldN <= newN <= MaxBlocks(|d0.indirect|)
  {
    && PointersDone(d0, free0, oldN, newN, d, t)
    && BlocksDone(d0, disk0, free0, oldN, newN, d, disk, t)
    && (forall k :: 0 <= k < oldN && k < DirectPtrNum ==> d.direct[k] == d0.direct[k])
    && (forall k :: oldN <= k < Min(newN, DirectPtrNum) ==> NewBlockDone(free0, oldN, newN, d, disk, k))
    && (forall k :: 0 <= k < oldN ==> BlockRead(disk, BlockSector(d0, disk0, k)) == BlockRead(disk0, BlockSector(d0, disk0, k)))
  }

  /** What growth needs of the old file: its tables are apart from the free
      list, and its blocks are neither free nor among its tables. */
  ghost predicate Separate(d0: DiskInode, disk0: Disk, free0: seq<Sector>) {
    && WellFormed(d0) && NumTables(Sectors(d0)) <= |d0.indirect| && Apart(d0, Sectors(d0), free0)
    && (forall k, i :: 0 <= k < Sectors(d0) && 0 <= i < |free0| ==> BlockSector(d0, disk0, k) != free0[i])
    && (forall k, u :: 0 <= k < Sectors(d0) && 0 <= u < NumTables(Sectors(d0)) ==> BlockSector(d0, disk0, k) != d0.indirect[u])
  }

  /** A sound file is separate from the free list. */
  lemma {:induction false} OldApart(d0: DiskInode, disk0: Disk, free0: seq<Sector>)
    requires Sound(d0, disk0, free0)
    ensures Separate(d0, disk0, free0)
  {
    var n, nt := Sectors(d0), NumTables(Sectors(d0));
    var all := Footprint(d0, disk0) + free0;
    var rest := d0.indirect[..nt] + free0;
    forall i, j | 0 <= i < j < |rest| ensures rest[i] != rest[j] {
      assert rest[i] == all[n + i] && rest[j] == all[n + j];
    }
    forall k, i | 0 <= k < n && 0 <= i < |free0| ensures BlockSector(d0, disk0, k) != free0[i] {
      assert all[k] == BlockSector(d0, disk0, k) && all[n + nt + i] == free0[i];
    }
    forall k, u | 0 <= k < n && 0 <= u < nt ensures BlockSector(d0, disk0, k) != d0.indirect[u] {
      assert all[k] == BlockSector(d0, disk0, k) && all[n + u] == d0.indirect[u];
    }
  }

  /** Addressable blocks need no more tables than there are pointers. */
  lemma {:induction false} TablesInRange(n: nat, ni: nat)
    requires n <= MaxBlocks(ni)
    ensures NumTables(n) <= ni
  {
    if n > DirectPtrNum {
      DivMono(n - DirectPtrNum + 128 - 1, ni * 128 + 128 - 1, 128);
      DivUnique(ni * 128 + 128 - 1, 128, ni, 128 - 1);
    }
  }

  /** The direct phase of growth allocates the new direct blocks from the
      front of the free list and zeroes them, changing nothing else: that
      is the state of growth before the first table. */
  lemma {:induction false} DirectPhase(d0: DiskInode, disk0: Disk, free0: seq<Sector>, oldN: nat, newN: nat, d: DiskInode, disk: Disk)
    requires Sound(d0, disk0, free0) && oldN == Sectors(d0) && oldN <= newN <= MaxBlocks(|d0.indirect|)
    requires DirectNew(oldN, newN) <= |free0|
    requires Shaped(d) && d.indirect == d0.indirect
    requires forall k :: 0 <= k < DirectPtrNum && !(oldN <= k < newN) ==> d.direct[k] == d0.direct[k]
    requires forall k :: oldN <= k < Min(newN, DirectPtrNum) ==> d.direct[k] == free0[k - oldN]
    requires forall x :: BlockRead(disk, x) == if x in free0[..DirectNew(oldN, newN)] then Zeros() else BlockRead(disk0, x)
    ensures TablesDone(d0, disk0, free0, oldN, newN, d, disk, FirstTable(oldN))
  {
    OldApart(d0, disk0, free0);
    ApartFacts(d0, oldN, free0);
    var given := free0[..DirectNew(oldN, newN)];
    forall u | 0 <= u < NumTables(oldN) ensures BlockRead(disk, d0.indirect[u]) == BlockRead(disk0, d0.indirect[u]) {
      assert d0.indirect[u] !in given;
    }
    KeptTables(d0, disk0, d, disk, oldN);
    forall k | 0 <= k < oldN
      ensures BlockRead(disk, BlockSector(d0, disk0, k)) == BlockRead(disk0, BlockSector(d0, disk0, k))
    {
      assert BlockSector(d0, disk0, k) !in given;
    }
    forall k | oldN <= k < Min(newN, DirectPtrNum) ensures NewBlockDone(free0, oldN, newN, d, disk, k) {
      assert AllocIndex(oldN, newN, k) == k - oldN;
      assert free0[k - oldN] in given;
    }
    FirstTableBelow(oldN);
  }

  /** Blocks reached through tables whose pointers and content are kept
      are kept. */
  lemma {:induction false} KeptTables(d0: DiskInode, disk0: Disk, d: DiskInode, disk: Disk, oldN: nat)
    requires Shaped(d0) && Shaped(d) && d.indirect == d0.indirect && oldN <= MaxBlocks(|d0.indirect|)
    requires forall u :: 0 <= u < NumTables(oldN) && u < |d0.indirect| ==> BlockRead(disk, d0.indirect[u]) == BlockRead(disk0, d0.indirect[u])
    ensures forall k :: DirectPtrNum <= k < oldN ==> BlockSector(d, disk, k) == BlockSector(d0, disk0, k)
  {
    forall k | DirectPtrNum <= k < oldN ensures BlockSector(d, disk, k) == BlockSector(d0, disk0, k) {
      TableOfBlock(k, oldN);
      TableOfBlockInRange(k, |d0.indirect|);
    }
  }

  /** The loop's first table starts at or before the old file's first
      unused entry, and is at most the first new table. */
  lemma {:induction false} FirstTableBelow(oldN: nat)
    ensures FirstTable(oldN) * 128 <= FirstEntry(oldN)
    ensures FirstTable(oldN) <= NumTables(oldN)
  {
    DivMono(FirstEntry(oldN), FirstEntry(oldN) + 128 - 1, 128);
    DivUnique(FirstEntry(oldN), 128, FirstTable(oldN), FirstEntry(oldN) % 128);
  }

  /** A pass does not touch a sector given out before the table. */
  lemma {:induction false} PassKeepsEarlier(d0: DiskInode, free0: seq<Sector>, oldN: nat, newN: nat, t: nat, p: Pass, i: nat)
    requires Plan(d0, free0, oldN, newN, t) && PassOver(d0, free0, oldN, newN, t, p)
    requires i < Consumed(oldN, newN, t)
    ensures i < |free0| && BlockRead(p.disk2, free0[i]) == BlockRead(p.disk1, free0[i])
  {
    LoopStep(oldN, newN, t);
    ApartFacts(d0, oldN, free0);
    TableSectorApart(d0, free0, oldN, newN, t, p);
    var base, stop := EntryBase(oldN, newN, t), Consumed(oldN, newN, t + 1);
    assert free0[i] !in free0[base..stop];
  }

  /** A pass does not touch a sector that is neither free nor an old table. */
  lemma {:induction false} PassKeepsOld(d0: DiskInode, free0: seq<Sector>, oldN: nat, newN: nat, t: nat, p: Pass, x: Sector)
    requires Plan(d0, free0, oldN, newN, t) && PassOver(d0, free0, oldN, newN, t, p)
    requires x !in free0 && forall u :: 0 <= u < NumTables(oldN) ==> x != d0.indirect[u]
    ensures BlockRead(p.disk2, x) == BlockRead(p.disk1, x)
  {
    LoopStep(oldN, newN, t);
    TableSectorApart(d0, free0, oldN, newN, t, p);
    var base, stop := EntryBase(oldN, newN, t), Consumed(oldN, newN, t + 1);
    assert x !in free0[base..stop];
  }

  /** A pass keeps the state of growth: afterwards it holds before table
      t + 1. */
  lemma {:induction false} PassDone(d0: DiskInode, disk0: Disk, free0: seq<Sector>, oldN: nat, newN: nat, t: nat, p: Pass)
    requires Separate(d0, disk0, free0) && oldN == Sectors(d0)
    requires Plan(d0, free0, oldN, newN, t) && PassOver(d0, free0, oldN, newN, t, p)
    requires |p.d1.indirect| == |d0.indirect|
    requires TablesDone(d0, disk0, free0, oldN, newN, p.d1, p.disk1, t)
    ensures Shaped(p.d2) && |p.d2.indirect| == |d0.indirect|
    ensures TablesDone(d0, disk0, free0, oldN, newN, p.d2, p.disk2, t + 1)
  {
    LoopStep(oldN, newN, t);
    TableStep(d0, disk0, free0, oldN, newN, t, p);
    forall k | oldN <= k < Min(newN, DirectPtrNum) ensures NewBlockDone(free0, oldN, newN, p.d2, p.disk2, k) {
      assert NewBlockDone(free0, oldN, newN, p.d1, p.disk1, k);
      PassKeepsEarlier(d0, free0, oldN, newN, t, p, k - oldN);
    }
    forall k | 0 <= k < oldN
      ensures BlockRead(p.disk2, BlockSector(d0, disk0, k)) == BlockRead(disk0, BlockSector(d0, disk0, k))
    {
      PassKeepsOld(d0, free0, oldN, newN, t, p, BlockSector(d0, disk0, k));
    }
  }

  /** Once every table is done, the descriptor with its new length is the
      old file grown. */
  lemma {:induction false} TablesGrown(d0: DiskInode, disk0: Disk, free0: seq<Sector>, d: DiskInode, disk: Disk, len: int, t: nat)
    requires WellFormed(d0) && Shaped(d) && |d.indirect| == |d0.indirect|
    requires WellFormed(d.(length := len)) && Sectors(d0) <= Sectors(d.(length := len))
    requires Needed(Sectors(d0), Sectors(d.(length := len))) <= |free0|
    requires TablesDone(d0, disk0, free0, Sectors(d0), Sectors(d.(length := len)), d, disk, t)
    requires NumTables(Sectors(d.(length := len))) <= t && Sectors(d.(length := len)) - DirectPtrNum <= t * 128
    ensures GrownFrom(d0, disk0, free0, d.(length := len), disk)
  {
    var dd := d.(length := len);
    GrownBlocks(d0, disk0, free0, Sectors(d0), Sectors(dd), d, dd, disk, t);
  }

  /** The blocks of a finished growth, for any descriptor with the same
      pointers. */
  lemma {:induction false} GrownBlocks(d0: DiskInode, disk0: Disk, free0: seq<Sector>, oldN: nat, newN: nat, d: DiskInode, dd: DiskInode, disk: Disk, t: nat)
    requires Shaped(d0) && Shaped(d) && |d.indirect| == |d0.indirect| && oldN <= newN <= MaxBlocks(|d0.indirect|)
    requires dd.direct == d.direct && dd.indirect == d.indirect
    requires TablesDone(d0, disk0, free0, oldN, newN, d, disk, t) && newN - DirectPtrNum <= t * 128
    ensures forall k :: 0 <= k < oldN ==> BlockSector(dd, disk, k) == BlockSector(d0, disk0, k)
    ensures forall k :: oldN <= k < newN ==>
              && AllocIndex(oldN, newN, k) < |free0|
              && BlockSector(dd, disk, k) == free0[AllocIndex(oldN, newN, k)]
              && BlockRead(disk, free0[AllocIndex(oldN, newN, k)]) == Zeros()
  {
    forall k | 0 <= k < oldN ensures BlockSector(dd, disk, k) == BlockSector(d0, disk0, k) {
      assert BlockSector(dd, disk, k) == BlockSector(d, disk, k);
    }
    forall k | oldN <= k < newN
      ensures && AllocIndex(oldN, newN, k) < |free0|
              && BlockSector(dd, disk, k) == free0[AllocIndex(oldN, newN, k)]
              && BlockRead(disk, free0[AllocIndex(oldN, newN, k)]) == Zeros()
    {
      assert NewBlockDone(free0, oldN, newN, d, disk, k);
      assert BlockSector(dd, disk, k) == BlockSector(d, disk, k);
    }
  }

  lemma PassTableOfLoop(d0: DiskInode, free0: seq<Sector>, oldN: nat, newN: nat, t: nat, p: Pass, base: nat, left: int, count: int)
    requires Plan(d0, free0, oldN, newN, t)
    requires base == EntryBase(oldN, newN, t) && left == Kept(oldN, t) && count == Filled(newN, t)
    requires Shaped(p.d1) && PointersDone(d0, free0, oldN, newN, p.d1, t) && t < |p.d1.indirect|
    requires NewTable(oldN, t) ==> Consumed(oldN, newN, t) < |free0|
    requires p.d2 == (if NewTable(oldN, t) then p.d1.(indirect := p.d1.indirect[t := free0[Consumed(oldN, newN, t)]]) else p.d1)
    requires p.table0 == (if NewTable(oldN, t) then EmptyTable() else TableAt(p.disk1, p.d1.indirect[t]))
    requires forall j :: 0 <= j < 128 && !(left <= j < count) ==> p.table1[j] == p.table0[j]
    requires forall j :: left <= j < count ==> base + j - left < |free0| && p.table1[j] == free0[base + j - left]
    ensures PassTable(d0, free0, oldN, newN, t, p)
  {
  }

  lemma PassDiskOfLoop(d0: DiskInode, free0: seq<Sector>, oldN: nat, newN: nat, t: nat, p: Pass, base: nat, stop: nat)
    requires Plan(d0, free0, oldN, newN, t)
    requires base == EntryBase(oldN, newN, t) && stop == Consumed(oldN, newN, t + 1)
    requires t < |p.d2.indirect| && base <= stop <= |free0|
    requires forall i :: base <= i < stop ==> BlockRead(p.diskA, free0[i]) == Zeros()
    requires forall x :: x !in free0[base..stop] ==> BlockRead(p.diskA, x) == BlockRead(p.disk1, x)
    requires p.disk2 == p.diskA[p.d2.indirect[t] := EncodeTable(p.table1)]
    ensures PassDisk(d0, free0, oldN, newN, t, p)
  {
  }

  // ---------------------------------------------------------------------
  // The loop as the method runs it

  /** The loop's own variables at table `t`: the table index, whether the
      table is new, the first entry to fill and the entries in use after. */
  lemma {:induction false} PassBounds(oldN: nat, newN: nat, t: nat, ise: int, tableNOld: int, iso: int, i: int)
    requires oldN <= newN && DirectPtrNum < newN
    requires ise == FirstEntry(oldN) && tableNOld == (ise + 128 - 1) / 128 && iso == newN - DirectPtrNum
    requires FirstTable(oldN) <= t && i == t * 128 && i < iso
    ensures i / 128 == t && t < NumTables(newN)
    ensures (i / 128 + 1 > tableNOld) == NewTable(oldN, t)
    ensures !NewTable(oldN, t) ==> ise % 128 == Kept(oldN, t)
    ensures NewTable(oldN, t) ==> Kept(oldN, t) == 0
    ensures Filled(newN, t) == if iso - i < 128 then iso - i else 128
    ensures 0 <= Kept(oldN, t) <= Filled(newN, t) <= 128
  {
    LoopStep(oldN, newN, t);
    DivUnique(i, 128, t, 0);
  }

  /** The free list when the entry loop of table `t` starts. */
  lemma {:induction false} EntriesStart(free0: seq<Sector>, oldN: nat, newN: nat, t: nat, f1: seq<Sector>, list: seq<Sector>)
    requires oldN <= newN && DirectPtrNum < newN && FirstTable(oldN) <= t && t * 128 < newN - DirectPtrNum
    requires f1 == free0[Min(Consumed(oldN, newN, t), |free0|)..]
    requires NewTable(oldN, t) ==> f1 != [] && list == f1[1..]
    requires !NewTable(oldN, t) ==> list == f1 && Consumed(oldN, newN, t) <= |free0|
    ensures EntryBase(oldN, newN, t) <= |free0| && list == free0[EntryBase(oldN, newN, t)..]
    ensures NewTable(oldN, t) ==> Consumed(oldN, newN, t) < |free0| && f1[0] == free0[Consumed(oldN, newN, t)]
  {
    if NewTable(oldN, t) {
      var c := Consumed(oldN, newN, t);
      assert c < |free0|;
      assert free0[c..][1..] == free0[c + 1..];
    }
  }

  /** The free list after the entry loop of table `t` filled every entry. */
  lemma {:induction false} EntriesEnd(free0: seq<Sector>, oldN: nat, newN: nat, t: nat, list: seq<Sector>, f2: seq<Sector>, left: int, count: int)
    requires oldN <= newN && DirectPtrNum < newN && FirstTable(oldN) <= t && t * 128 < newN - DirectPtrNum
    requires left == Kept(oldN, t) && count == Filled(newN, t)
    requires EntryBase(oldN, newN, t) <= |free0| && list == free0[EntryBase(oldN, newN, t)..]
    requires 0 <= count - left <= |list| && f2 == list[count - left..]
    ensures Consumed(oldN, newN, t + 1) <= |free0|
    ensures f2 == free0[Min(Consumed(oldN, newN, t + 1), |free0|)..]
  {
    LoopStep(oldN, newN, t);
    var base := EntryBase(oldN, newN, t);
    assert free0[base..][count - left..] == free0[base + (count - left)..];
  }

  /** The allocation of a new table failing means the free list was
      shorter than growth needs. */
  lemma {:induction false} TableFails(free0: seq<Sector>, oldN: nat, newN: nat, t: nat, f1: seq<Sector>)
    requires oldN <= newN && DirectPtrNum < newN && FirstTable(oldN) <= t && t * 128 < newN - DirectPtrNum
    requires f1 == free0[Min(Consumed(oldN, newN, t), |free0|)..] && NewTable(oldN, t) && f1 == []
    ensures Needed(oldN, newN) > |free0|
  {
    LoopStep(oldN, newN, t);
  }

  /** The allocation of an entry failing means the free list was shorter
      than growth needs. */
  lemma {:induction false} EntriesFail(free0: seq<Sector>, oldN: nat, newN: nat, t: nat, list: seq<Sector>, left: int, count: int)
    requires oldN <= newN && DirectPtrNum < newN && FirstTable(oldN) <= t && t * 128 < newN - DirectPtrNum
    requires left == Kept(oldN, t) && count == Filled(newN, t)
    requires EntryBase(oldN, newN, t) <= |free0| && list == free0[EntryBase(oldN, newN, t)..] && count - left > |list|
    ensures Needed(oldN, newN) > |free0|
  {
    LoopStep(oldN, newN, t);
  }

  /** Table `u` holds blocks of a file of `n` blocks just when its first
      entry lies below the file's end. */
  lemma {:induction false} TableUsed(n: nat, u: nat)
    requires DirectPtrNum < n
    ensures u < NumTables(n) <==> u * 128 < n - DirectPtrNum
  {
    if u < NumTables(n) {
      MulMono(NumTables(n) - 1, u, 128);
    } else {
      MulMono(u, NumTables(n), 128);
    }
  }

  // ---------------------------------------------------------------------
  // The loop as functions

  /** Entries [from, to) of `entries` replaced, in order, by the first
      sectors of `list`. */
  function Refill(entries: seq<Sector>, from: int, to: int, list: seq<Sector>): (r: seq<Sector>)
    requires 0 <= from <= to <= |entries| && to - from <= |list|
    ensures |r| == |entries|
    ensures forall j :: 0 <= j < |entries| ==> r[j] == if from <= j < to then list[j - from] else entries[j]
  {
    seq(|entries|, j requires 0 <= j < |entries| => if from <= j < to then list[j - from] else entries[j])
  }

  /** Refilled entries are the free-list sectors from position `base` on. */
  lemma RefillFrom(table: seq<Sector>, left: int, count: int, list: seq<Sector>, filled: seq<Sector>,
                   free0: seq<Sector>, base: int)
    requires 0 <= left <= count <= |table| && count - left <= |list|
    requires 0 <= base <= |free0| && list == free0[base..] && filled == Refill(table, left, count, list)
    ensures forall j :: left <= j < count ==> base + j - left < |free0| && filled[j] == free0[base + j - left]
  {
    forall j | left <= j < count ensures base + j - left < |free0| && filled[j] == free0[base + j - left] {
      assert filled[j] == list[j - left];
    }
  }

  /** Refilling no entry leaves them as they are. */
  lemma RefillNone(entries: seq<Sector>, from: int, list: seq<Sector>)
    requires 0 <= from <= |entries|
    ensures Refill(entries, from, from, list) == entries
  {
  }

  /** A slice grown by one element. */
  lemma SliceSnoc(s: seq<Sector>, a: int, b: int)
    requires 0 <= a <= b < |s|
    ensures s[a..b + 1] == s[a..b] + [s[b]]
  {
  }

  /** Refilling one more entry. */
  lemma RefillStep(entries: seq<Sector>, from: int, to: int, list: seq<Sector>)
    requires 0 <= from <= to < |entries| && to - from < |list|
    ensures Refill(entries, from, to + 1, list) == Refill(entries, from, to, list)[to := list[to - from]]
  {
  }

  /** One step of an unchecked allocation loop: entry `i` takes the head
      of what is left of `list`, or keeps its value once `list` is used up. */
  lemma RefillNext(entries: seq<Sector>, from: int, i: int, list: seq<Sector>, filled: seq<Sector>, rest: seq<Sector>)
    requires 0 <= from <= i < |entries|
    requires var n := Min(i - from, |list|); filled == Refill(entries, from, from + n, list) && rest == list[n..]
    ensures var n := Min(i + 1 - from, |list|);
            && (rest != [] ==> filled[i := rest[0]] == Refill(entries, from, from + n, list) && rest[1..] == list[n..])
            && (rest == [] ==> filled == Refill(entries, from, from + n, list) && rest == list[n..])
            && (rest != [] ==> filled[i := rest[0]][from..i] == filled[from..i])
  {
    var n := Min(i - from, |list|);
    if rest != [] {
      assert n == i - from && rest[0] == list[i - from];
      RefillStep(entries, from, i, list);
      assert list[n..][1..] == list[n + 1..];
    }
  }

  /** The device once the sectors of `s` are zero-filled one after the
      other: exactly those sectors read as zeros, every other one as
      before. */
  function ZeroFill(disk: Disk, s: seq<Sector>): (r: Disk)
    ensures forall x :: BlockRead(r, x) == if x in s then Zeros() else BlockRead(disk, x)
    decreases |s|
  {
    if s == [] then disk
    else
      assert s == s[..|s| - 1] + [s[|s| - 1]];
      ZeroFill(disk, s[..|s| - 1])[s[|s| - 1] := Zeros()]
  }

  /** Zero-filling one more sector. */
  lemma ZeroFillSnoc(disk: Disk, s: seq<Sector>, x: Sector)
    ensures ZeroFill(disk, s + [x]) == ZeroFill(disk, s)[x := Zeros()]
  {
    assert (s + [x])[..|s|] == s;
  }

  /** Zero-filling the entries a pass takes, as FillEntries does it, zeroes
      exactly free-list positions [base, stop). */
  lemma ZeroFillRange(disk: Disk, free0: seq<Sector>, base: nat, stop: nat, list: seq<Sector>, n: nat)
    requires base <= stop <= |free0| && list == free0[base..] && n == stop - base
    ensures forall i :: base <= i < stop ==> BlockRead(ZeroFill(disk, list[..n]), free0[i]) == Zeros()
    ensures forall x :: x !in free0[base..stop] ==> BlockRead(ZeroFill(disk, list[..n]), x) == BlockRead(disk, x)
  {
    assert list[..n] == free0[base..stop];
    forall i | base <= i < stop ensures free0[i] in list[..n] {
      assert free0[i] == free0[base..stop][i - base];
    }
  }

  /** The values one run of the loop body computes form a pass over table
      `t`: the table as opened, its entries refilled from the free list,
      those sectors zero-filled and the table written back. */
  lemma {:induction false} PassOfLoop(d0: DiskInode, free0: seq<Sector>, oldN: nat, newN: nat, t: nat,
                                      dIn: DiskInode, disk1: Disk, d: DiskInode, table: Table, left: int, count: int,
                                      list: seq<Sector>, filled: seq<Sector>, diskA: Disk, disk2: Disk, f2: seq<Sector>)
    requires Shaped(d0) && NumTables(oldN) <= |d0.indirect| && Apart(d0, oldN, free0)
    requires oldN <= newN <= MaxBlocks(|d0.indirect|) && DirectPtrNum < newN
    requires FirstTable(oldN) <= t && t * 128 < newN - DirectPtrNum && count == Filled(newN, t)
    requires Shaped(dIn) && PointersDone(d0, free0, oldN, newN, dIn, t)
    requires Opened(free0, oldN, newN, t, dIn, disk1, d, table, left, list)
    requires Refilled(table, left, count, list, filled, disk1, diskA, f2)
    requires disk2 == diskA[d.indirect[t] := EncodeTable(filled)]
    ensures Consumed(oldN, newN, t + 1) <= |free0| && f2 == free0[Consumed(oldN, newN, t + 1)..]
    ensures Plan(d0, free0, oldN, newN, t) && PassOver(d0, free0, oldN, newN, t, Pass(dIn, disk1, d, table, filled, diskA, disk2))
  {
    EntriesEnd(free0, oldN, newN, t, list, f2, left, count);
    var base, stop := EntryBase(oldN, newN, t), Consumed(oldN, newN, t + 1);
    EntrySpan(oldN, newN, t);
    ZeroFillRange(disk1, free0, base, stop, list, count - left);
    var p := Pass(dIn, disk1, d, table, filled, diskA, disk2);
    RefillFrom(table, left, count, list, filled, free0, base);
    PassTableOfLoop(d0, free0, oldN, newN, t, p, base, left, count);
    PassDiskOfLoop(d0, free0, oldN, newN, t, p, base, stop);
  }

  /** The entries a pass over table `t` fills are free-list positions
      [EntryBase, Consumed(t + 1)). */
  lemma EntrySpan(oldN: nat, newN: nat, t: nat)
    requires oldN <= newN && DirectPtrNum < newN
    requires FirstTable(oldN) <= t && t * 128 < newN - DirectPtrNum
    ensures 0 <= Kept(oldN, t) <= Filled(newN, t)
    ensures EntryBase(oldN, newN, t) + Filled(newN, t) - Kept(oldN, t) == Consumed(oldN, newN, t + 1)
  {
    LoopStep(oldN, newN, t);
  }

  /** The state of growth before table `t`, with the plan in range. */
  ghost predicate Growing(d0: DiskInode, disk0: Disk, free0: seq<Sector>, oldN: nat, newN: nat, d: DiskInode, disk: Disk, t: nat) {
    && Separate(d0, disk0, free0) && oldN == Sectors(d0)
    && oldN <= newN <= MaxBlocks(|d0.indirect|) && DirectPtrNum < newN
    && Shaped(d) && |d.indirect| == |d0.indirect|
    && TablesDone(d0, disk0, free0, oldN, newN, d, disk, t)
  }

  /** The invariant of the table loop before the pass over table `t`:
      the descriptor differs from `dIn` only in its table pointers, the
      free list has lost what the passes so far consumed (which fits in it,
      unless no pass has run and the first allocation may still fail), and
      a sound file has its tables up to `t` done. */
  ghost predicate TableLoop(d0: DiskInode, disk0: Disk, free0: seq<Sector>, sound: bool, oldN: nat, newN: nat,
                            dIn: DiskInode, d: DiskInode, disk: Disk, free: seq<Sector>, t: nat) {
    && oldN <= newN && FirstTable(oldN) <= t <= NumTables(newN)
    && (t > FirstTable(oldN) ==> (t - 1) * 128 < newN - DirectPtrNum)
    && d == dIn.(indirect := d.indirect) && |d.indirect| == |dIn.indirect|
    && free == free0[Min(Consumed(oldN, newN, t), |free0|)..]
    && (Consumed(oldN, newN, t) <= |free0| || (t == FirstTable(oldN) && NewTable(oldN, t) && t * 128 < newN - DirectPtrNum))
    && (sound ==> Growing(d0, disk0, free0, oldN, newN, d, disk, t))
  }

  /** Table `t` as a pass opens it: a new table has the next free sector
      and starts empty, an old one is read from its sector; the entries
      to fill start after the old file's, and `list` is the free list
      from the first of them on. */
  ghost predicate Opened(free0: seq<Sector>, oldN: nat, newN: nat, t: nat, dIn: DiskInode, disk1: Disk,
                         d: DiskInode, table: Table, left: int, list: seq<Sector>)
    requires oldN <= newN
  {
    && t < |dIn.indirect|
    && EntryBase(oldN, newN, t) <= |free0| && list == free0[EntryBase(oldN, newN, t)..]
    && left == Kept(oldN, t)
    && (NewTable(oldN, t) ==>
          && Consumed(oldN, newN, t) < |free0| && table == EmptyTable()
          && d == dIn.(indirect := dIn.indirect[t := free0[Consumed(oldN, newN, t)]]))
    && (!NewTable(oldN, t) ==> d == dIn && table == TableAt(disk1, dIn.indirect[t]))
  }

  /** Entries [left, count) of `table` refilled from the head of `list`,
      whose sectors are zero-filled; `rest` is the list after them. */
  ghost predicate Refilled(table: seq<Sector>, left: int, count: int, list: seq<Sector>,
                           filled: seq<Sector>, disk1: Disk, diskA: Disk, rest: seq<Sector>) {
    && 0 <= left <= count <= |table| && count - left <= |list|
    && filled == Refill(table, left, count, list)
    && diskA == ZeroFill(disk1, list[..count - left])
    && rest == list[count - left..]
  }

  /** The frame of growth once it has taken `n` sectors of `free0`, for an
      old file whose tables are `tables`: those pointers are kept, and only
      the sectors taken and the old tables may differ from `disk0`. */
  ghost predicate Confined(tables: seq<Sector>, disk0: Disk, free0: seq<Sector>, n: nat, d: DiskInode, disk: Disk) {
    && |tables| <= |d.indirect| && d.indirect[..|tables|] == tables
    && ChangedOnly(disk0, disk, free0[..Min(n, |free0|)] + tables)
  }

  /** A pass that fills its entries keeps growth within the frame widened
      by the sectors it took: the entries' sectors are zero-filled, and the
      table goes to its own sector, a new one from the free list or one of
      the old tables. */
  lemma {:induction false} PassConfined(tables: seq<Sector>, disk0: Disk, free0: seq<Sector>, oldN: nat, newN: nat, t: nat,
                                        dIn: DiskInode, disk1: Disk, d: DiskInode, table: Table, left: int, count: int,
                                        list: seq<Sector>, filled: seq<Sector>, diskA: Disk, f2: seq<Sector>, b: Block)
    requires oldN <= newN && DirectPtrNum < newN && FirstTable(oldN) <= t && t * 128 < newN - DirectPtrNum
    requires count == Filled(newN, t)
    requires Opened(free0, oldN, newN, t, dIn, disk1, d, table, left, list)
    requires Refilled(table, left, count, list, filled, disk1, diskA, f2)
    requires |tables| == NumTables(oldN) && Confined(tables, disk0, free0, Consumed(oldN, newN, t), d, disk1)
    ensures Confined(tables, disk0, free0, Consumed(oldN, newN, t + 1), d, diskA[d.indirect[t] := b])
  {
    var base, next := PassSectors(tables, free0, oldN, newN, t, dIn, disk1, d, table, left, count, list, filled, diskA, f2);
    PassWrites(tables, disk0, free0, Consumed(oldN, newN, t), next, d, disk1, base, diskA, d.indirect[t], b);
  }

  /** Where a pass that fills its entries writes: positions [base, next)
      of the free list, and the table's sector, which lies in the frame. */
  lemma {:induction false} PassSectors(tables: seq<Sector>, free0: seq<Sector>, oldN: nat, newN: nat, t: nat,
                                       dIn: DiskInode, disk1: Disk, d: DiskInode, table: Table, left: int, count: int,
                                       list: seq<Sector>, filled: seq<Sector>, diskA: Disk, f2: seq<Sector>)
      returns (base: nat, next: nat)
    requires oldN <= newN && DirectPtrNum < newN && FirstTable(oldN) <= t && t * 128 < newN - DirectPtrNum
    requires count == Filled(newN, t)
    requires Opened(free0, oldN, newN, t, dIn, disk1, d, table, left, list)
    requires Refilled(table, left, count, list, filled, disk1, diskA, f2)
    requires |tables| == NumTables(oldN) && |tables| <= |d.indirect| && d.indirect[..|tables|] == tables
    ensures next == Consumed(oldN, newN, t + 1) && Consumed(oldN, newN, t) <= base <= next <= |free0|
    ensures diskA == ZeroFill(disk1, free0[base..next])
    ensures t < |d.indirect| && d.indirect[t] in free0[..next] + tables
  {
    base, next := PassSpan(free0, oldN, newN, t, left, count, list, disk1, diskA);
    TableInFrame(tables, free0, oldN, newN, t, dIn, d, next);
  }

  /** The entries of a pass over table `t` are free-list positions
      [EntryBase, Consumed(t + 1)), which the pass zero-fills. */
  lemma {:induction false} PassSpan(free0: seq<Sector>, oldN: nat, newN: nat, t: nat, left: int, count: int,
                                    list: seq<Sector>, disk1: Disk, diskA: Disk) returns (base: nat, next: nat)
    requires oldN <= newN && DirectPtrNum < newN && FirstTable(oldN) <= t && t * 128 < newN - DirectPtrNum
    requires count == Filled(newN, t) && left == Kept(oldN, t)
    requires EntryBase(oldN, newN, t) <= |free0| && list == free0[EntryBase(oldN, newN, t)..]
    requires 0 <= count - left <= |list| && diskA == ZeroFill(disk1, list[..count - left])
    ensures base == EntryBase(oldN, newN, t) && next == Consumed(oldN, newN, t + 1)
    ensures Consumed(oldN, newN, t) <= base <= next <= |free0|
    ensures diskA == ZeroFill(disk1, free0[base..next])
  {
    LoopStep(oldN, newN, t);
    base, next := EntryBase(oldN, newN, t), Consumed(oldN, newN, t + 1);
    SuffixPrefix(free0, base, count - left, list);
  }

  /** The table a pass writes lies in the frame once the pass has taken
      the free list up to `next`: a new table's sector was taken before
      its entries, an old table is one of `tables`. */
  lemma {:induction false} TableInFrame(tables: seq<Sector>, free0: seq<Sector>, oldN: nat, newN: nat, t: nat,
                                        dIn: DiskInode, d: DiskInode, next: nat)
    requires oldN <= newN && t < |dIn.indirect| && next <= |free0|
    requires NewTable(oldN, t) ==>
               && Consumed(oldN, newN, t) < next
               && d == dIn.(indirect := dIn.indirect[t := free0[Consumed(oldN, newN, t)]])
    requires !NewTable(oldN, t) ==> d == dIn
    requires |tables| == NumTables(oldN) && |tables| <= |d.indirect| && d.indirect[..|tables|] == tables
    ensures t < |d.indirect| && d.indirect[t] in free0[..next] + tables
  {
    var s := free0[..next] + tables;
    if NewTable(oldN, t) {
      assert s[Consumed(oldN, newN, t)] == d.indirect[t];
    } else {
      assert s[next + t] == d.indirect[t];
    }
  }

  /** The first `k` sectors of the free list from position `base` on. */
  lemma SuffixPrefix(free: seq<Sector>, base: nat, k: nat, list: seq<Sector>)
    requires base <= |free| && list == free[base..] && k <= |list|
    ensures list[..k] == free[base..base + k]
  {
  }

  /** Zero-filling free-list positions [base, next) and writing a
      sector `x` of the widened frame stays within that frame. */
  lemma PassWrites(tables: seq<Sector>, disk0: Disk, free0: seq<Sector>, m: nat, next: nat, d: DiskInode,
                   disk1: Disk, base: nat, diskA: Disk, x: Sector, b: Block)
    requires Min(m, |free0|) <= next <= |free0| && base <= next
    requires Confined(tables, disk0, free0, m, d, disk1)
    requires diskA == ZeroFill(disk1, free0[base..next]) && x in free0[..next] + tables
    ensures Confined(tables, disk0, free0, next, d, diskA[x := b])
  {
    ConfinedFill(tables, disk0, free0, m, next, disk1, base, next);
    assert Min(next, |free0|) == next;
    ConfinedWrite(disk0, diskA, free0[..next] + tables, x, b);
  }

  /** Writing a sector of `s` keeps the device changed only within `s`. */
  lemma ConfinedWrite(disk0: Disk, disk: Disk, s: seq<Sector>, x: Sector, b: Block)
    requires ChangedOnly(disk0, disk, s) && x in s
    ensures ChangedOnly(disk0, disk[x := b], s)
  {
  }

  /** A pass whose entries run out of free sectors zero-fills the rest of
      the free list, which the frame of a failed growth covers. */
  lemma {:induction false} PassFailConfined(tables: seq<Sector>, disk0: Disk, free0: seq<Sector>, oldN: nat, newN: nat, t: nat,
                                            list: seq<Sector>, d: DiskInode, disk1: Disk)
    requires oldN <= newN && Needed(oldN, newN) > |free0|
    requires EntryBase(oldN, newN, t) <= |free0| && list == free0[EntryBase(oldN, newN, t)..]
    requires Confined(tables, disk0, free0, Consumed(oldN, newN, t), d, disk1)
    ensures Confined(tables, disk0, free0, Needed(oldN, newN), d, ZeroFill(disk1, list[..|list|]))
  {
    assert list[..|list|] == free0[EntryBase(oldN, newN, t)..|free0|];
    ConfinedFill(tables, disk0, free0, Consumed(oldN, newN, t), Needed(oldN, newN), disk1, EntryBase(oldN, newN, t), |free0|);
  }

  /** Zero-filling free-list positions [base, stop) stays within a frame
      that has grown to cover them. */
  lemma ConfinedFill(tables: seq<Sector>, disk0: Disk, free0: seq<Sector>, m: nat, m': nat, disk1: Disk, base: nat, stop: nat)
    requires Min(m, |free0|) <= Min(m', |free0|) && base <= stop <= Min(m', |free0|)
    requires ChangedOnly(disk0, disk1, free0[..Min(m, |free0|)] + tables)
    ensures ChangedOnly(disk0, ZeroFill(disk1, free0[base..stop]), free0[..Min(m', |free0|)] + tables)
  {
    var s := free0[..Min(m', |free0|)] + tables;
    forall i | 0 <= i < Min(m', |free0|) ensures free0[i] in s {
      assert s[i] == free0[i];
    }
    forall x | x !in s ensures x !in free0[base..stop] && x !in free0[..Min(m, |free0|)] + tables {
    }
  }

  /** One run of the loop body keeps the state of growth: the values it
      computes from the state before table `t` are the state before table
      t + 1. */
  lemma {:induction false} LoopBody(d0: DiskInode, disk0: Disk, free0: seq<Sector>, oldN: nat, newN: nat, t: nat,
                                    dIn: DiskInode, disk1: Disk, d: DiskInode, table: Table, left: int, count: int,
                                    list: seq<Sector>, filled: seq<Sector>, diskA: Disk, disk2: Disk, f2: seq<Sector>)
    requires Growing(d0, disk0, free0, oldN, newN, dIn, disk1, t)
    requires FirstTable(oldN) <= t && t * 128 < newN - DirectPtrNum && count == Filled(newN, t)
    requires Opened(free0, oldN, newN, t, dIn, disk1, d, table, left, list)
    requires Refilled(table, left, count, list, filled, disk1, diskA, f2)
    requires disk2 == diskA[d.indirect[t] := EncodeTable(filled)]
    ensures Consumed(oldN, newN, t + 1) <= |free0| && f2 == free0[Consumed(oldN, newN, t + 1)..]
    ensures Growing(d0, disk0, free0, oldN, newN, d, disk2, t + 1)
  {
    var p := Pass(dIn, disk1, d, table, filled, diskA, disk2);
    PassOfLoop(d0, free0, oldN, newN, t, dIn, disk1, d, table, left, count, list, filled, diskA, disk2, f2);
    PassDone(d0, disk0, free0, oldN, newN, t, p);
  }

  /** The free list after a pass that filled every entry. */
  lemma {:induction false} FreeAfterPass(free0: seq<Sector>, oldN: nat, newN: nat, t: nat,
                                         dIn: DiskInode, disk1: Disk, d: DiskInode, table: Table, left: int, count: int,
                                         list: seq<Sector>, filled: seq<Sector>, diskA: Disk, f2: seq<Sector>)
    requires oldN <= newN && DirectPtrNum < newN && FirstTable(oldN) <= t && t * 128 < newN - DirectPtrNum
    requires count == Filled(newN, t)
    requires Opened(free0, oldN, newN, t, dIn, disk1, d, table, left, list)
    requires Refilled(table, left, count, list, filled, disk1, diskA, f2)
    ensures Consumed(oldN, newN, t + 1) <= |free0| && f2 == free0[Min(Consumed(oldN, newN, t + 1), |free0|)..]
  {
    EntriesEnd(free0, oldN, newN, t, list, f2, left, count);
  }

  /** The direct blocks of a sound file grown from `oldN` to `newN` blocks,
      filled from the free list: the state before the first table. */
  lemma {:induction false} DirectFilled(d0: DiskInode, disk0: Disk, free0: seq<Sector>, oldN: nat, newN: nat,
                                        direct: seq<Sector>, disk: Disk, rest: seq<Sector>)
    requires Sound(d0, disk0, free0) && oldN == Sectors(d0) && oldN <= newN <= MaxBlocks(|d0.indirect|)
    requires oldN < DirectPtrNum && Refilled(d0.direct, oldN, Min(newN, DirectPtrNum), free0, direct, disk0, disk, rest)
    ensures DirectNew(oldN, newN) <= |free0| && rest == free0[DirectNew(oldN, newN)..]
    ensures TablesDone(d0, disk0, free0, oldN, newN, d0.(direct := direct), disk, FirstTable(oldN))
  {
    var m := DirectNew(oldN, newN);
    assert m == Min(newN, DirectPtrNum) - oldN;
    DirectPhase(d0, disk0, free0, oldN, newN, d0.(direct := direct), disk);
  }

  /** A sound file of at least DIRECT_PTR_NUM blocks starts growth at its
      first table, with nothing done yet. */
  lemma {:induction false} NoDirect(d0: DiskInode, disk0: Disk, free0: seq<Sector>, oldN: nat, newN: nat)
    requires Sound(d0, disk0, free0) && oldN == Sectors(d0) && oldN <= newN <= MaxBlocks(|d0.indirect|)
    requires DirectPtrNum <= oldN
    ensures DirectNew(oldN, newN) == 0
    ensures TablesDone(d0, disk0, free0, oldN, newN, d0, disk0, FirstTable(oldN))
  {
    assert free0[..0] == [];
    DirectPhase(d0, disk0, free0, oldN, newN, d0, disk0);
  }

  /** Once growth has done every table, the descriptor with its new length
      `len` is the old one grown, sound, keeps the old bytes and reads zero
      past them. */
  lemma {:induction false} GrowthDone(d0: DiskInode, disk0: Disk, free0: seq<Sector>, d: DiskInode, disk: Disk, len: int, t: nat)
    requires Sound(d0, disk0, free0) && Shaped(d) && |d.indirect| == |d0.indirect|
    requires WellFormed(d.(length := len)) && d0.length <= len && Sectors(d0) <= BytesToSectors(len)
    requires Needed(Sectors(d0), BytesToSectors(len)) <= |free0|
    requires TablesDone(d0, disk0, free0, Sectors(d0), BytesToSectors(len), d, disk, t)
    requires NumTables(BytesToSectors(len)) <= t && BytesToSectors(len) - DirectPtrNum <= t * 128
    ensures var dd := d.(length := len);
            && Sound(dd, disk, free0[Needed(Sectors(d0), Sectors(dd))..])
            && (forall p :: 0 <= p < d0.length ==> FileByte(dd, disk, p) == FileByte(d0, disk0, p))
            && (forall p :: d0.length <= p < len ==> FileByte(dd, disk, p) == 0)
            && Sectors(d0) <= Sectors(dd) && GrownFrom(d0, disk0, free0, dd, disk)
  {
    var dd := d.(length := len);
    TablesGrown(d0, disk0, free0, d, disk, len, t);
    GrowSound(d0, disk0, free0, dd, disk);
  }

  /** Growth of a sound file for byte `pos`, with every table done: the
      file of length pos + 1 is the old one grown (see GrownFrom), sound
      with the rest of the free list, keeps the old bytes and reads zero
      past them. */
  lemma {:induction false} GrowResult(d0: DiskInode, disk0: Disk, free0: seq<Sector>, d: DiskInode, disk: Disk,
                                      pos: int, t: nat, rest: seq<Sector>)
    requires Sound(d0, disk0, free0) && d0.length <= pos < MaxBytes(|d0.indirect|)
    requires Shaped(d) && |d.indirect| == |d0.indirect|
    requires Sectors(d0) <= BytesToSectors(pos + 1) <= MaxBlocks(|d0.indirect|)
    requires GrowNeeded(d0.length, pos) <= |free0| && rest == free0[Min(GrowNeeded(d0.length, pos), |free0|)..]
    requires TablesDone(d0, disk0, free0, Sectors(d0), BytesToSectors(pos + 1), d, disk, t)
    requires NumTables(BytesToSectors(pos + 1)) <= t && BytesToSectors(pos + 1) - DirectPtrNum <= t * 128
    ensures var dd := d.(length := pos + 1);
            && Sound(dd, disk, rest)
            && (forall p :: 0 <= p < d0.length ==> FileByte(dd, disk, p) == FileByte(d0, disk0, p))
            && (forall p :: d0.length <= p < dd.length ==> FileByte(dd, disk, p) == 0)
            && Sectors(d0) <= Sectors(dd) && GrownFrom(d0, disk0, free0, dd, disk)
  {
    var dd := d.(length := pos + 1);
    SectorsInRange(dd);
    GrowthDone(d0, disk0, free0, d, disk, pos + 1, t);
  }

  /** The direct blocks growth allocates are part of what it needs, and all
      of it while the file stays within its direct blocks. */
  lemma NeededOfDirect(oldN: nat, newN: nat)
    requires oldN <= newN
    ensures DirectNew(oldN, newN) <= Needed(oldN, newN)
    ensures newN <= DirectPtrNum ==> Needed(oldN, newN) == DirectNew(oldN, newN)
  {
    NumTablesMono(oldN, newN);
  }

  // ---------------------------------------------------------------------
  // The direct-block loop as written

  /** The outcome of byte_to_sector_write's direct-block loop over pointers
      [from, to) as written: the pointers take the free sectors while they
      last and keep their values after that, and the sectors all of them
      name are zero-filled. Returns the descriptor, the device and the rest
      of the free list. */
  function UncheckedDirect(d: DiskInode, disk: Disk, free: seq<Sector>, from: int, to: int): (DiskInode, Disk, seq<Sector>)
    requires Shaped(d) && 0 <= from <= to <= DirectPtrNum
  {
    var n := Min(to - from, |free|);
    var dd := d.(direct := Refill(d.direct, from, from + n, free));
    (dd, ZeroFill(disk, dd.direct[from..to]), free[n..])
  }

  /** The state of the direct-block loop as written after pointers
      [from, i): they took the sectors of `list` while it lasted, `rest` is
      what is left of it, and the sectors they name (`zeroed`) are
      zero-filled. */
  predicate UncheckedUpTo(entries: seq<Sector>, from: int, i: int, list: seq<Sector>, direct: seq<Sector>,
                          rest: seq<Sector>, disk0: Disk, zeroed: seq<Sector>, disk: Disk)
  {
    && 0 <= from <= i <= |entries|
    && var n := Min(i - from, |list|);
    && direct == Refill(entries, from, from + n, list) && rest == list[n..]
    && zeroed == direct[from..i] && disk == ZeroFill(disk0, zeroed)
  }

  /** Before the first pointer. */
  lemma UncheckedStart(entries: seq<Sector>, from: int, list: seq<Sector>, disk0: Disk)
    requires 0 <= from <= |entries|
    ensures UncheckedUpTo(entries, from, from, list, entries, list, disk0, [], disk0)
  {
    RefillNone(entries, from, list);
  }

  /** One step of the direct-block loop as written: pointer `i` takes the
      head of what is left of `list`, if any, and the sector it then names
      is zero-filled. */
  lemma UncheckedStep(entries: seq<Sector>, from: int, i: int, list: seq<Sector>, direct: seq<Sector>,
                      rest: seq<Sector>, disk0: Disk, zeroed: seq<Sector>, disk: Disk,
                      r: Option<Sector>, after: seq<Sector>)
    requires i < |entries| && UncheckedUpTo(entries, from, i, list, direct, rest, disk0, zeroed, disk)
    requires rest == [] ==> r == None && after == []
    requires rest != [] ==> r == Some(rest[0]) && after == rest[1..]
    ensures var next := if r.Some? then direct[i := r.value] else direct;
            UncheckedUpTo(entries, from, i + 1, list, next, after, disk0, zeroed + [next[i]], disk[next[i] := Zeros()])
  {
    RefillNext(entries, from, i, list, direct, rest);
    var next := if r.Some? then direct[i := r.value] else direct;
    SliceSnoc(next, from, i);
    ZeroFillSnoc(disk0, zeroed, next[i]);
  }

  /** The state the direct-block loop ends in is UncheckedDirect's. */
  lemma UncheckedDirectIs(d: DiskInode, disk: Disk, free: seq<Sector>, from: int, to: int,
                          direct: seq<Sector>, rest: seq<Sector>, zeroed: seq<Sector>, disk1: Disk)
    requires Shaped(d) && to <= DirectPtrNum
    requires UncheckedUpTo(d.direct, from, to, free, direct, rest, disk, zeroed, disk1)
    ensures (d.(direct := direct), disk1, rest) == UncheckedDirect(d, disk, free, from, to)
  {
  }

  /** A one-byte write to an empty file (as inode_create leaves one, its
      pointers zero) with no free sector left: the loop as written
      allocates nothing, yet the length still becomes 1, so the file claims
      block 0 at sector 0, zero-fills that sector, and is not a growth of
      the old file. */
  lemma UncheckedDirectGrowth(d0: DiskInode, disk0: Disk)
    requires WellFormed(d0) && d0.length == 0 && d0.direct[0] == 0
    ensures var r := UncheckedDirect(d0, disk0, [], 0, 1);
            r.0 == d0 && r.1 == ZeroFill(disk0, [0]) && r.2 == [] && BlockRead(r.1, 0) == Zeros()
    ensures var d1 := d0.(length := 1);
            && WellFormed(d1) && Sectors(d0) == 0 && Sectors(d1) == 1
            && GrowNeeded(d0.length, 0) == 1 && d1.direct[0] == 0
            && !GrownFrom(d0, disk0, [], d1, ZeroFill(disk0, [0]))
  {
    RefillNone(d0.direct, 0, []);
    assert d0.direct[0..1] == [0];
    assert BytesToSectors(0) == 0 && BytesToSectors(1) == 1;
    assert NumTables(0) == 0 && NumTables(1) == 0;
  }
}
