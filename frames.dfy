/** The frame table of the buffer cache as a value: the frame record, the
    lookup the cache performs on it, and the abstract view of the device that
    the frame table and the device present together. The class in cache.dfy
    keeps its frames in an array and is specified through these functions. */
module Frames {
  import opened Device

  /** MAX_CACHE_SIZE. */
  const MaxCacheSize: nat := 64

  /** struct buffer_cache: one cache frame. `pinBit` doubles as the clock's
      reference bit. */
  datatype Frame = Frame(buffer: Block, sectorId: Sector, dirty: bool, pinBit: bool, valid: bool)

  /** The frame cache_init puts in every slot. */
  function EmptyFrame(): Frame {
    Frame(Zeros(), 0, false, false, false)
  }

  /** Frame `f` is a valid copy of sector `s`. */
  predicate Holds(f: Frame, s: Sector) {
    f.valid && f.sectorId == s
  }

  /** A frame the clock must pass over (and clear) rather than evict. */
  predicate Pinned(f: Frame) {
    f.valid && f.pinBit
  }

  /** No sector is held by two valid frames. */
  ghost predicate UniqueSectors(fs: seq<Frame>) {
    forall i, j :: 0 <= i < j < |fs| && fs[i].valid && fs[j].valid ==> fs[i].sectorId != fs[j].sectorId
  }

  /** A valid frame that is not dirty holds what the device holds. */
  ghost predicate CleanCoherent(fs: seq<Frame>, dev: Disk) {
    forall i :: 0 <= i < |fs| && fs[i].valid && !fs[i].dirty ==> fs[i].buffer == BlockRead(dev, fs[i].sectorId)
  }

  /** search_sector on a frame sequence: the lowest index of a valid frame
      holding `s`, or -1 when there is none. */
  function FindSector(fs: seq<Frame>, s: Sector): (r: int)
    ensures -1 <= r < |fs|
    ensures r >= 0 ==> Holds(fs[r], s)
    ensures forall i :: 0 <= i < |fs| && (r < 0 || i < r) ==> !Holds(fs[i], s)
  {
    if |fs| == 0 then -1
    else if Holds(fs[0], s) then 0
    else
      var r := FindSector(fs[1..], s);
      if r < 0 then -1 else r + 1
  }

  /** What a read of sector `s` sees through the cache: the frame holding it,
      or else the device. */
  ghost function View(fs: seq<Frame>, dev: Disk, s: Sector): Block {
    var i := FindSector(fs, s);
    if i >= 0 then fs[i].buffer else BlockRead(dev, s)
  }

  /** The number of frames the clock would pass over. */
  function PinnedCount(fs: seq<Frame>): (n: nat)
    ensures n <= |fs|
  {
    if fs == [] then 0
    else PinnedCount(fs[..|fs| - 1]) + (if Pinned(fs[|fs| - 1]) then 1 else 0)
  }

  /** The effect of cache_out_all on one frame. */
  function Flushed(f: Frame): Frame {
    if f.valid && f.dirty then f.(valid := false, dirty := false) else f
  }

  /** The device writes cache_out_all performs, frame by frame in index order. */
  ghost function DirtyMap(fs: seq<Frame>): map<Sector, Block> {
    if fs == [] then map[]
    else
      var f := fs[|fs| - 1];
      var m := DirtyMap(fs[..|fs| - 1]);
      if f.valid && f.dirty then m[f.sectorId := f.buffer] else m
  }

  /** Two frames that agree on everything but the pin bit. */
  predicate SameContent(f: Frame, g: Frame) {
    f.valid == g.valid && f.sectorId == g.sectorId && f.buffer == g.buffer && f.dirty == g.dirty
  }

  // ---------------------------------------------------------------------
  // Lemmas

  /** FindSector depends only on which frames hold the sector. */
  lemma FindSectorSameHolds(fs: seq<Frame>, gs: seq<Frame>, s: Sector)
    requires |fs| == |gs|
    requires forall i :: 0 <= i < |fs| ==> Holds(fs[i], s) == Holds(gs[i], s)
    ensures FindSector(fs, s) == FindSector(gs, s)
  {
    var a, b := FindSector(fs, s), FindSector(gs, s);
    if a >= 0 { assert Holds(gs[a], s); }
    if b >= 0 { assert Holds(fs[b], s); }
  }

  /** Under UniqueSectors, the frame FindSector returns is the only one. */
  lemma FindSectorOnly(fs: seq<Frame>, s: Sector, j: nat)
    requires UniqueSectors(fs)
    requires j < |fs| && Holds(fs[j], s)
    ensures FindSector(fs, s) == j
  {
  }

  /** Extending a frame sequence at the back. */
  lemma FindSectorSnoc(fs: seq<Frame>, s: Sector)
    requires |fs| > 0
    ensures var j := FindSector(fs[..|fs| - 1], s);
            FindSector(fs, s) == if j >= 0 then j else if Holds(fs[|fs| - 1], s) then |fs| - 1 else -1
  {
    var n := |fs| - 1;
    assert forall i :: 0 <= i < n ==> fs[..n][i] == fs[i];
  }

  /** Frames that agree on everything but pin bits give the same view and
      keep the invariants. */
  lemma ViewSameContent(fs: seq<Frame>, gs: seq<Frame>, dev: Disk)
    requires |fs| == |gs|
    requires forall i :: 0 <= i < |fs| ==> SameContent(fs[i], gs[i])
    ensures UniqueSectors(fs) ==> UniqueSectors(gs)
    ensures CleanCoherent(fs, dev) ==> CleanCoherent(gs, dev)
    ensures forall s :: View(gs, dev, s) == View(fs, dev, s)
  {
    forall s ensures View(gs, dev, s) == View(fs, dev, s) {
      FindSectorSameHolds(fs, gs, s);
    }
  }

  /** Clearing the pin bit of one frame lowers PinnedCount by one. */
  lemma {:induction false} PinnedCountClear(fs: seq<Frame>, i: nat)
    requires i < |fs| && Pinned(fs[i])
    ensures PinnedCount(fs[i := fs[i].(pinBit := false)]) == PinnedCount(fs) - 1
  {
    var gs := fs[i := fs[i].(pinBit := false)];
    var n := |fs| - 1;
    if i == n {
      assert gs[..n] == fs[..n];
    } else {
      PinnedCountClear(fs[..n], i);
      assert gs[..n] == fs[..n][i := fs[i].(pinBit := false)];
    }
  }

  /** What the flush writes for sector `s`: the content of the dirty frame
      holding it, and nothing if no dirty frame holds it. */
  lemma {:induction false} DirtyMapLookup(fs: seq<Frame>, s: Sector)
    requires UniqueSectors(fs)
    ensures var i := FindSector(fs, s);
            && (s in DirtyMap(fs) <==> i >= 0 && fs[i].dirty)
            && (s in DirtyMap(fs) ==> DirtyMap(fs)[s] == fs[i].buffer)
  {
    if fs != [] {
      var n := |fs| - 1;
      assert forall k :: 0 <= k < n ==> fs[..n][k] == fs[k];
      DirtyMapLookup(fs[..n], s);
      FindSectorSnoc(fs, s);
      var j := FindSector(fs[..n], s);
      if j >= 0 && fs[n].valid {
        assert fs[j].sectorId != fs[n].sectorId;
      }
    }
  }

  /** Evicting a valid frame, with write-back when it is dirty, changes no
      sector's view. */
  lemma Evict(fs: seq<Frame>, dev: Disk, c: nat)
    requires UniqueSectors(fs) && CleanCoherent(fs, dev)
    requires c < |fs| && fs[c].valid
    ensures var f := fs[c];
            var gs := fs[c := f.(valid := false)];
            var dev' := if f.dirty then dev[f.sectorId := f.buffer] else dev;
            && UniqueSectors(gs) && CleanCoherent(gs, dev')
            && forall s :: View(gs, dev', s) == View(fs, dev, s)
  {
    var f := fs[c];
    var gs := fs[c := f.(valid := false)];
    var dev' := if f.dirty then dev[f.sectorId := f.buffer] else dev;
    forall i | 0 <= i < |gs| && gs[i].valid && !gs[i].dirty
      ensures gs[i].buffer == BlockRead(dev', gs[i].sectorId)
    {
      assert i != c;
      if i < c { assert fs[i].sectorId != fs[c].sectorId; } else { assert fs[c].sectorId != fs[i].sectorId; }
    }
    forall s ensures View(gs, dev', s) == View(fs, dev, s) {
      if s == f.sectorId {
        FindSectorOnly(fs, s, c);
        forall k | 0 <= k < |gs| ensures !Holds(gs[k], s) {
          assert k < c ==> fs[k].sectorId != fs[c].sectorId || !fs[k].valid;
          assert c < k ==> fs[c].sectorId != fs[k].sectorId || !fs[k].valid;
        }
      } else {
        FindSectorSameHolds(fs, gs, s);
      }
    }
  }

  /** Installing sector `s` as a dirty frame at slot `c` (the hit and the
      miss case of cache_write, with its write-through to the device). */
  lemma InstallDirty(fs: seq<Frame>, dev: Disk, c: nat, s: Sector, b: Block)
    requires UniqueSectors(fs) && CleanCoherent(fs, dev)
    requires c < |fs|
    requires Holds(fs[c], s) || (!fs[c].valid && FindSector(fs, s) < 0)
    ensures var gs := fs[c := Frame(b, s, true, true, true)];
            && UniqueSectors(gs) && CleanCoherent(gs, dev[s := b])
            && FindSector(gs, s) == c
            && forall t :: View(gs, dev[s := b], t) == if t == s then b else View(fs, dev, t)
  {
    var gs := fs[c := Frame(b, s, true, true, true)];
    var dev' := dev[s := b];
    forall k | 0 <= k < |fs| && k != c ensures !Holds(fs[k], s) {
      assert k < c ==> !fs[k].valid || !fs[c].valid || fs[k].sectorId != fs[c].sectorId;
      assert c < k ==> !fs[k].valid || !fs[c].valid || fs[c].sectorId != fs[k].sectorId;
    }
    FindSectorOnly(gs, s, c);
    forall t ensures View(gs, dev', t) == if t == s then b else View(fs, dev, t) {
      if t != s { FindSectorSameHolds(fs, gs, t); }
    }
  }

  /** Loading sector `s` from the device into the free slot `c` (the miss
      case of cache_read; the slot keeps whatever dirty bit it had). */
  lemma InstallLoaded(fs: seq<Frame>, dev: Disk, c: nat, s: Sector)
    requires UniqueSectors(fs) && CleanCoherent(fs, dev)
    requires c < |fs| && !fs[c].valid && FindSector(fs, s) < 0
    ensures var gs := fs[c := Frame(BlockRead(dev, s), s, fs[c].dirty, true, true)];
            && UniqueSectors(gs) && CleanCoherent(gs, dev)
            && FindSector(gs, s) == c
            && forall t :: View(gs, dev, t) == View(fs, dev, t)
  {
    var gs := fs[c := Frame(BlockRead(dev, s), s, fs[c].dirty, true, true)];
    forall i, j | 0 <= i < j < |gs| && gs[i].valid && gs[j].valid
      ensures gs[i].sectorId != gs[j].sectorId
    {
      if i == c { assert !Holds(fs[j], s); }
      if j == c { assert !Holds(fs[i], s); }
    }
    FindSectorOnly(gs, s, c);
    forall t ensures View(gs, dev, t) == View(fs, dev, t) {
      if t != s { FindSectorSameHolds(fs, gs, t); }
    }
  }

  /** The state cache_out_all leaves: every dirty frame written back and
      invalidated, and neither the view nor (now) the device disagrees with
      what the cache presented before. */
  lemma Flush(fs: seq<Frame>, dev: Disk)
    requires UniqueSectors(fs) && CleanCoherent(fs, dev)
    ensures var gs := seq(|fs|, i requires 0 <= i < |fs| => Flushed(fs[i]));
            var dev' := dev + DirtyMap(fs);
            && UniqueSectors(gs) && CleanCoherent(gs, dev')
            && (forall i :: 0 <= i < |gs| ==> !(gs[i].valid && gs[i].dirty))
            && (forall s :: BlockRead(dev', s) == View(fs, dev, s))
            && (forall s :: View(gs, dev', s) == View(fs, dev, s))
  {
    var gs := seq(|fs|, i requires 0 <= i < |fs| => Flushed(fs[i]));
    var dev' := dev + DirtyMap(fs);
    forall i | 0 <= i < |gs| && gs[i].valid && !gs[i].dirty
      ensures gs[i].buffer == BlockRead(dev', gs[i].sectorId)
    {
      var t := fs[i].sectorId;
      DirtyMapLookup(fs, t);
      FindSectorOnly(fs, t, i);
    }
    forall s ensures BlockRead(dev', s) == View(fs, dev, s) && View(gs, dev', s) == View(fs, dev, s) {
      DirtyMapLookup(fs, s);
      var i := FindSector(fs, s);
      forall k | 0 <= k < |gs| && Holds(gs[k], s) ensures k == i {
        FindSectorOnly(fs, s, k);
      }
      if i >= 0 && !fs[i].dirty {
        FindSectorOnly(gs, s, i);
      }
    }
  }
}
