/** The buffer cache (cache.c): a fixed table of MAX_CACHE_SIZE frames in
    front of the block device, a rotating clock hand for second-chance
    eviction, and the device itself. Each operation is atomic (the source
    runs it under `cache_lock`). Through every operation the cache presents
    the same device contents as `Content`, which only a write changes. */
module Cache {
  import opened Device
  import opened Frames

  /** How many steps the clock hand takes from slot `h` to reach slot `i`. */
  function Behind(h: int, i: int): nat {
    (i - h) % MaxCacheSize
  }

  lemma BehindOfHand(h: int, p: nat)
    requires 0 <= h < MaxCacheSize && p < MaxCacheSize
    ensures Behind(h, (h + p) % MaxCacheSize) == p
  {
  }

  lemma BehindDistinct(h: int, c: int)
    requires 0 <= c < MaxCacheSize
    ensures forall i :: 0 <= i < MaxCacheSize && i != c ==> Behind(h, i) != Behind(h, c)
  {
  }

  /** Advancing the hand one slot after `p` steps gives `p + 1` steps, and
      the slots fewer than `p + 1` steps away are those fewer than `p` steps
      away plus the slot the hand was on. */
  lemma HandStep(h: int, p: nat)
    requires 0 <= h < MaxCacheSize && p < MaxCacheSize
    ensures ((h + p) % MaxCacheSize + 1) % MaxCacheSize == (h + p + 1) % MaxCacheSize
    ensures forall i :: 0 <= i < MaxCacheSize ==>
              (Behind(h, i) < p + 1 <==> Behind(h, i) < p || i == (h + p) % MaxCacheSize)
  {
    BehindOfHand(h, p);
    BehindDistinct(h, (h + p) % MaxCacheSize);
  }

  /** The frames after the hand, starting at slot `h`, has passed over `p`
      of them, clearing the pin bit of each. */
  function Swept(fs: seq<Frame>, h: int, p: nat): (r: seq<Frame>)
    ensures |r| == |fs|
  {
    seq(|fs|, i requires 0 <= i < |fs| => if Behind(h, i) < p then fs[i].(pinBit := false) else fs[i])
  }

  /** One more step of the sweep clears the pin bit of the frame under the
      hand, which was set. */
  lemma SweepStep(fs: seq<Frame>, h: int, p: nat)
    requires |fs| == MaxCacheSize && 0 <= h < MaxCacheSize && p < MaxCacheSize
    requires Pinned(Swept(fs, h, p)[(h + p) % MaxCacheSize])
    ensures var c := (h + p) % MaxCacheSize;
            && Swept(fs, h, p)[c := Swept(fs, h, p)[c].(pinBit := false)] == Swept(fs, h, p + 1)
            && Pinned(fs[c])
            && PinnedCount(Swept(fs, h, p + 1)) == PinnedCount(Swept(fs, h, p)) - 1
  {
    var c := (h + p) % MaxCacheSize;
    var a, b := Swept(fs, h, p), Swept(fs, h, p + 1);
    BehindOfHand(h, p);
    BehindDistinct(h, c);
    assert a[c := a[c].(pinBit := false)] == b;
    PinnedCountClear(a, c);
  }

  /** The frames the scan leaves when it stops at `slot` after passing over
      `p` frames from `h`: the claimed frame, if valid, is invalidated. */
  function Claimed(fs: seq<Frame>, h: int, p: nat, slot: nat): (r: seq<Frame>)
    requires slot < |fs|
    ensures |r| == |fs| && !r[slot].valid
  {
    var sw := Swept(fs, h, p);
    sw[slot := sw[slot].(valid := false)]
  }

  /** The device after the claimed frame is written back when dirty. */
  function ClaimedDevice(fs: seq<Frame>, dev: Disk, h: int, p: nat, slot: nat): (r: Disk)
    requires slot < |fs|
    ensures var v := Swept(fs, h, p)[slot];
            forall t :: t != v.sectorId ==> BlockRead(r, t) == BlockRead(dev, t)
  {
    var v := Swept(fs, h, p)[slot];
    if v.valid && v.dirty then dev[v.sectorId := v.buffer] else dev
  }

  /** A scan from hand `h` that passed over `passed` frames, each valid and
      pinned, claimed `slot` and left the hand at `hand`, one past it. */
  ghost predicate Claim(fs: seq<Frame>, h: int, passed: nat, slot: int, hand: int) {
    && |fs| == MaxCacheSize && 0 <= slot < MaxCacheSize && passed <= MaxCacheSize
    && slot == (h + passed) % MaxCacheSize && hand == (slot + 1) % MaxCacheSize
    && forall i :: 0 <= i < MaxCacheSize && Behind(h, i) < passed ==> Pinned(fs[i])
  }

  /** Claiming a slot after a sweep keeps the invariants and the view, and
      changes no valid frame except for its pin bit. */
  lemma ClaimKeeps(fs: seq<Frame>, dev: Disk, h: int, p: nat, slot: nat)
    requires UniqueSectors(fs) && CleanCoherent(fs, dev) && slot < |fs|
    ensures var gs, dev' := Claimed(fs, h, p, slot), ClaimedDevice(fs, dev, h, p, slot);
            && UniqueSectors(gs) && CleanCoherent(gs, dev')
            && (forall s :: View(gs, dev', s) == View(fs, dev, s))
            && forall i :: 0 <= i < |fs| && gs[i].valid ==> SameContent(fs[i], gs[i])
  {
    var sw := Swept(fs, h, p);
    SweptSameContent(fs, h, p);
    ViewSameContent(fs, sw, dev);
    if sw[slot].valid {
      Evict(sw, dev, slot);
    } else {
      assert Claimed(fs, h, p, slot) == sw;
    }
  }

  /** The sweep only touches pin bits. */
  lemma SweptSameContent(fs: seq<Frame>, h: int, p: nat)
    ensures forall i :: 0 <= i < |fs| ==> SameContent(fs[i], Swept(fs, h, p)[i])
  {
  }

  class BufferCache {
    /** cache[MAX_CACHE_SIZE] */
    var frames: array<Frame>
    /** clock_ptr */
    var clockPtr: int
    /** The block device (fs_device) behind the cache. */
    var device: Disk

    ghost predicate Valid()
      reads this, frames
    {
      && frames.Length == MaxCacheSize
      && 0 <= clockPtr < MaxCacheSize
      && UniqueSectors(frames[..])
      && CleanCoherent(frames[..], device)
    }

    /** What a read of sector `s` returns: the content the cache presents. */
    ghost function Content(s: Sector): Block
      reads this, frames
    {
      View(frames[..], device, s)
    }

    /** cache_init, with the clock hand starting at slot 0. */
    constructor Init(dev: Disk)
      ensures Valid() && fresh(frames) && device == dev && clockPtr == 0
      ensures forall i :: 0 <= i < frames.Length ==> frames[i] == EmptyFrame()
      ensures forall s :: Content(s) == BlockRead(dev, s)
    {
      frames := new Frame[MaxCacheSize](_ => EmptyFrame());
      clockPtr := 0;
      device := dev;
    }

    /** cache_init as written: the hand starts at -1, so the first scan of
        clock_algorithm indexes the slot before the array. */
    constructor InitAsWritten(dev: Disk)
      ensures fresh(frames) && frames.Length == MaxCacheSize && device == dev
      ensures forall i :: 0 <= i < frames.Length ==> frames[i] == EmptyFrame()
      ensures clockPtr == -1 && !(0 <= clockPtr < frames.Length) && !Valid()
    {
      frames := new Frame[MaxCacheSize](_ => EmptyFrame());
      clockPtr := -1;
      device := dev;
    }

    /** search_sector: the lowest slot holding a valid copy of `s`, or -1. */
    method SearchSector(s: Sector) returns (r: int)
      ensures -1 <= r < frames.Length
      ensures r >= 0 ==> frames[r].valid && frames[r].sectorId == s
      ensures forall i :: 0 <= i < frames.Length && (r < 0 || i < r) ==> !Holds(frames[i], s)
      ensures r == FindSector(frames[..], s)
    {
      for i := 0 to frames.Length
        invariant forall k :: 0 <= k < i ==> !Holds(frames[k], s)
      {
        if frames[i].valid && frames[i].sectorId == s {
          return i;
        }
      }
      return -1;
    }

    /** clock_ptr_move: advance the hand one slot, wrapping around. */
    method ClockPtrMove()
      requires -1 <= clockPtr
      modifies this`clockPtr
      ensures clockPtr == (old(clockPtr) + 1) % MaxCacheSize
      ensures 0 <= clockPtr < MaxCacheSize
    {
      clockPtr := (clockPtr + 1) % MaxCacheSize;
    }

    /** clock_algorithm: second-chance scan from the hand. A valid frame
        with its pin bit set is passed over and its pin bit cleared; the
        first invalid frame, or valid frame without the pin bit, is claimed.
        A claimed valid frame is written back first if dirty and then
        invalidated. The hand is left one past the claimed slot.
        `passed` counts the frames passed over, so the scan runs at most
        MaxCacheSize + 1 iterations. */
    method ClockAlgorithm() returns (slot: int, ghost passed: nat)
      requires Valid()
      modifies this`clockPtr, this`device, frames
      ensures Valid()
      ensures 0 <= slot < MaxCacheSize && !frames[slot].valid
      ensures passed <= MaxCacheSize
      ensures slot == (old(clockPtr) + passed) % MaxCacheSize
      ensures clockPtr == (slot + 1) % MaxCacheSize
      ensures forall i :: 0 <= i < MaxCacheSize && Behind(old(clockPtr), i) < passed ==> Pinned(old(frames[i]))
      ensures !Pinned(Swept(old(frames[..]), old(clockPtr), passed)[slot])
      ensures frames[..] == Claimed(old(frames[..]), old(clockPtr), passed, slot)
      ensures device == ClaimedDevice(old(frames[..]), old(device), old(clockPtr), passed, slot)
      ensures forall i :: 0 <= i < MaxCacheSize && frames[i].valid ==> SameContent(old(frames[i]), frames[i])
      ensures forall s :: Content(s) == old(Content(s))
    {
      ghost var h0 := clockPtr;
      ghost var fs0 := frames[..];
      ghost var dev0 := device;
      passed := 0;
      assert frames[..] == Swept(fs0, h0, 0);
      while frames[clockPtr].valid && frames[clockPtr].pinBit
        invariant frames.Length == MaxCacheSize && 0 <= clockPtr < MaxCacheSize
        invariant device == dev0
        invariant passed <= MaxCacheSize
        invariant frames[..] == Swept(fs0, h0, passed)
        invariant passed + PinnedCount(frames[..]) == PinnedCount(fs0)
        invariant clockPtr == (h0 + passed) % MaxCacheSize
        invariant forall i :: 0 <= i < MaxCacheSize && Behind(h0, i) < passed ==> Pinned(fs0[i])
        decreases PinnedCount(frames[..])
      {
        var c := clockPtr;
        HandStep(h0, passed);
        SweepStep(fs0, h0, passed);
        frames[c] := frames[c].(pinBit := false);
        passed := passed + 1;
        ClockPtrMove();
      }
      slot := clockPtr;
      ClaimKeeps(fs0, dev0, h0, passed, slot);
      if frames[slot].valid {
        if frames[slot].dirty {
          device := device[frames[slot].sectorId := frames[slot].buffer];
        }
        frames[slot] := frames[slot].(valid := false);
      }
      assert frames[..] == Claimed(fs0, h0, passed, slot);
      ClockPtrMove();
    }

    /** cache_read: the content of sector `s`. A hit copies the frame out
        and changes nothing; a miss claims a slot with the clock, loads the
        sector from the device into it and pins it. */
    method Read(s: Sector) returns (buf: Block, ghost slot: int, ghost passed: nat)
      requires Valid()
      modifies this`clockPtr, this`device, frames
      ensures Valid()
      ensures buf == old(Content(s))
      ensures forall t :: Content(t) == old(Content(t))
      ensures var i := FindSector(frames[..], s); i >= 0 && frames[i].buffer == buf
      ensures old(FindSector(frames[..], s)) >= 0 ==>
                && slot == old(FindSector(frames[..], s)) && passed == 0
                && frames[..] == old(frames[..]) && device == old(device) && clockPtr == old(clockPtr)
      ensures old(FindSector(frames[..], s)) < 0 ==>
                && Claim(old(frames[..]), old(clockPtr), passed, slot, clockPtr)
                && device == ClaimedDevice(old(frames[..]), old(device), old(clockPtr), passed, slot)
                && var gs := Claimed(old(frames[..]), old(clockPtr), passed, slot);
                   frames[..] == gs[slot := Frame(BlockRead(device, s), s, gs[slot].dirty, true, true)]
    {
      ghost var fs0, dev0, h0 := frames[..], device, clockPtr;
      var hit := SearchSector(s);
      if hit != -1 {
        buf := frames[hit].buffer;
        slot, passed := hit, 0;
      } else {
        var victim;
        victim, passed := ClockAlgorithm();
        slot := victim;
        assert forall i :: 0 <= i < MaxCacheSize ==> !Holds(frames[i], s);
        ghost var fs1 := frames[..];
        assert Claim(fs0, h0, passed, slot, clockPtr);
        assert fs1 == Claimed(fs0, h0, passed, slot) && device == ClaimedDevice(fs0, dev0, h0, passed, slot);
        forall t ensures View(fs1, device, t) == old(Content(t)) {
          assert Content(t) == old(Content(t));
        }
        InstallLoaded(fs1, device, victim, s);
        // The source's `dirty == false` is a comparison, not an assignment:
        // the claimed slot keeps the dirty bit it had.
        frames[victim] := frames[victim].(sectorId := s, valid := true, pinBit := true);
        frames[victim] := frames[victim].(buffer := BlockRead(device, s));
        buf := frames[victim].buffer;
        assert frames[..] == fs1[victim := Frame(BlockRead(device, s), s, fs1[victim].dirty, true, true)];
        forall t ensures Content(t) == old(Content(t)) {
          assert Content(t) == View(fs1, device, t);
        }
        assert buf == old(Content(s));
      }
    }

    /** cache_write: install `b` as the content of sector `s`, dirty and
        pinned, in the frame already holding `s` or in a slot the clock
        claims; then write `b` to the device as well. */
    method Write(s: Sector, b: Block) returns (ghost at: int, ghost passed: nat)
      requires Valid()
      modifies this`clockPtr, this`device, frames
      ensures Valid()
      ensures forall t :: Content(t) == if t == s then b else old(Content(t))
      ensures s in device && device[s] == b
      ensures var i := FindSector(frames[..], s); i >= 0 && frames[i] == Frame(b, s, true, true, true)
      ensures old(FindSector(frames[..], s)) >= 0 ==>
                && at == old(FindSector(frames[..], s)) && passed == 0
                && clockPtr == old(clockPtr) && device == old(device)[s := b]
                && frames[..] == old(frames[..])[at := Frame(b, s, true, true, true)]
      ensures old(FindSector(frames[..], s)) < 0 ==>
                && Claim(old(frames[..]), old(clockPtr), passed, at, clockPtr)
                && device == ClaimedDevice(old(frames[..]), old(device), old(clockPtr), passed, at)[s := b]
                && frames[..] == Claimed(old(frames[..]), old(clockPtr), passed, at)[at := Frame(b, s, true, true, true)]
    {
      ghost var fs1: seq<Frame>, dev1: Disk;
      ghost var fs0, dev0, h0 := frames[..], device, clockPtr;
      var slot := SearchSector(s);
      passed := 0;
      if slot != -1 {
        fs1, dev1 := frames[..], device;
        assert forall t :: View(fs1, dev1, t) == old(Content(t));
        InstallDirty(fs1, dev1, slot, s, b);
        frames[slot] := frames[slot].(pinBit := true);
        frames[slot] := frames[slot].(buffer := b, dirty := true);
        assert frames[..] == fs1[slot := Frame(b, s, true, true, true)];
      } else {
        slot, passed := ClockAlgorithm();
        assert forall i :: 0 <= i < MaxCacheSize ==> !Holds(frames[i], s);
        fs1, dev1 := frames[..], device;
        assert Claim(fs0, h0, passed, slot, clockPtr);
        assert fs1 == Claimed(fs0, h0, passed, slot) && dev1 == ClaimedDevice(fs0, dev0, h0, passed, slot);
        forall t ensures View(fs1, dev1, t) == old(Content(t)) {
          assert Content(t) == old(Content(t));
        }
        InstallDirty(fs1, dev1, slot, s, b);
        frames[slot] := frames[slot].(sectorId := s, valid := true, dirty := true, pinBit := true);
        frames[slot] := frames[slot].(buffer := b);
        assert frames[..] == fs1[slot := Frame(b, s, true, true, true)];
      }
      device := device[s := b];
      at := slot;
      forall t ensures Content(t) == if t == s then b else old(Content(t)) {
        assert Content(t) == View(fs1[slot := Frame(b, s, true, true, true)], dev1[s := b], t);
      }
    }

    /** cache_out_all: write every valid dirty frame to the device and
        invalidate it. Afterwards the device alone holds what the cache
        presented. */
    method OutAll()
      requires Valid()
      modifies this`device, frames
      ensures Valid()
      ensures forall i :: 0 <= i < MaxCacheSize ==> frames[i] == Flushed(old(frames[i]))
      ensures device == old(device) + DirtyMap(old(frames[..]))
      ensures forall i :: 0 <= i < MaxCacheSize ==> !(frames[i].valid && frames[i].dirty)
      ensures forall s :: BlockRead(device, s) == old(Content(s))
      ensures forall s :: Content(s) == old(Content(s))
    {
      ghost var fs0 := frames[..];
      ghost var dev0 := device;
      for i := 0 to MaxCacheSize
        invariant forall k :: 0 <= k < i ==> frames[k] == Flushed(fs0[k])
        invariant forall k :: i <= k < MaxCacheSize ==> frames[k] == fs0[k]
        invariant device == dev0 + DirtyMap(fs0[..i])
      {
        assert fs0[..i + 1][..i] == fs0[..i];
        if frames[i].valid && frames[i].dirty {
          device := device[frames[i].sectorId := frames[i].buffer];
          frames[i] := frames[i].(valid := false, dirty := false);
        }
      }
      assert fs0[..MaxCacheSize] == fs0;
      Flush(fs0, dev0);
      assert frames[..] == seq(|fs0|, i requires 0 <= i < |fs0| => Flushed(fs0[i]));
    }
  }

  /** Read-after-write: what was written to `s` is read back, across a write
      to another sector, an eviction scan and a flush. */
  method ReadAfterWrite(c: BufferCache, s: Sector, b: Block, t: Sector, d: Block) returns (r: Block)
    requires c.Valid() && t != s
    modifies c, c.frames
    ensures c.Valid()
    ensures r == b
  {
    ghost var at, passed;
    at, passed := c.Write(s, b);
    at, passed := c.Write(t, d);
    var slot;
    slot, passed := c.ClockAlgorithm();
    c.OutAll();
    r, at, passed := c.Read(s);
  }
}
