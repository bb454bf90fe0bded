/** How much a file can grow, read off the bitmap alone: first fit takes the
    lowest free runs whole, and every run but one that continues the last extent
    costs one of the six extent slots. */
module FsSpace {
  import opened Bytes
  import opened FsFormat
  import opened FsNode
  import opened FsAlloc

  /** The blocks of the first `n` maximal free runs of `[lo, hi)`. */
  function FreeRuns(used: set<nat>, lo: nat, hi: nat, n: nat): nat
    requires lo <= hi
    decreases n, used
  {
    if n == 0 then 0
    else
      var s := Scan(used, lo, hi, false);
      var e := Scan(used, s, hi, true);
      (e - s) + FreeRuns(used, e, hi, n - 1)
  }

  function FirstFree(used: set<nat>, g: Geometry): nat
    requires g.dataStart <= g.totalBlocks
  {
    Scan(used, g.dataStart, g.totalBlocks, false)
  }

  /** The lowest free block continues the last extent. */
  predicate Continues(used: set<nat>, g: Geometry, ext: seq<Extent>)
    requires g.dataStart <= g.totalBlocks
  {
    ext != [] && ext[|ext| - 1].start + ext[|ext| - 1].len == FirstFree(used, g)
  }

  /** How many free runs the file can still take. */
  function Slots(used: set<nat>, g: Geometry, ext: seq<Extent>): nat
    requires g.dataStart <= g.totalBlocks && |ext| <= MAX_EXTENTS
  {
    MAX_EXTENTS - |ext| + if Continues(used, g, ext) then 1 else 0
  }

  /** The blocks a file could still gain. */
  function Room(used: set<nat>, g: Geometry, ext: seq<Extent>): nat
    requires g.dataStart <= g.totalBlocks && |ext| <= MAX_EXTENTS
  {
    FreeRuns(used, g.dataStart, g.totalBlocks, Slots(used, g, ext))
  }

  // ---- scanning --------------------------------------------------------------------

  /** A scan is determined by what it finds. */
  lemma ScanIs(used: set<nat>, b: nat, limit: nat, want: bool, r: nat)
    requires b <= r <= limit && (r < limit ==> (r in used) == want) && forall x | b <= x < r :: (x in used) != want
    ensures Scan(used, b, limit, want) == r
  {
    ScanFinds(used, b, limit, want);
  }

  /** Taken blocks in front do not matter. */
  lemma RunsSkip(used: set<nat>, lo: nat, mid: nat, hi: nat, n: nat)
    requires lo <= mid <= hi && forall b | lo <= b < mid :: b in used
    ensures FreeRuns(used, lo, hi, n) == FreeRuns(used, mid, hi, n)
  {
    ScanFinds(used, mid, hi, false);
    ScanIs(used, lo, hi, false, Scan(used, mid, hi, false));
  }

  /** Nor do blocks outside the range. */
  lemma {:induction false} RunsAgree(used: set<nat>, used': set<nat>, lo: nat, hi: nat, n: nat)
    requires lo <= hi && forall b | lo <= b < hi :: b in used <==> b in used'
    ensures FreeRuns(used, lo, hi, n) == FreeRuns(used', lo, hi, n)
    decreases n
  {
    if n > 0 {
      var s := Scan(used, lo, hi, false);
      ScanFinds(used, lo, hi, false);
      ScanIs(used', lo, hi, false, s);
      var e := Scan(used, s, hi, true);
      ScanFinds(used, s, hi, true);
      ScanIs(used', s, hi, true, e);
      RunsAgree(used, used', e, hi, n - 1);
    }
  }

  /** Nothing is free exactly when one run has no blocks. */
  lemma NoRun(used: set<nat>, lo: nat, hi: nat, n: nat)
    requires lo <= hi && n > 0
    ensures FreeRuns(used, lo, hi, n) == 0 <==> forall b | lo <= b < hi :: b in used
  {
    var s := Scan(used, lo, hi, false);
    ScanFinds(used, lo, hi, false);
    if s < hi {
      ScanFinds(used, s, hi, true);
    } else {
      EmptyRuns(used, hi, n - 1);
    }
  }

  lemma {:induction false} EmptyRuns(used: set<nat>, hi: nat, n: nat)
    ensures FreeRuns(used, hi, hi, n) == 0
    decreases n
  {
    if n > 0 {
      EmptyRuns(used, hi, n - 1);
    }
  }

  // ---- one run ---------------------------------------------------------------------

  /** The lowest run as the allocator cuts it, and the end of the whole run. */
  lemma RunTaken(used: set<nat>, g: Geometry, max: nat)
    requires g.dataStart <= g.totalBlocks && max > 0 && AllocRun(used, g, max).Some?
    ensures var (start, len) := AllocRun(used, g, max).value;
      var e := Scan(used, start, g.totalBlocks, true);
      && g.dataStart <= start == FirstFree(used, g) < g.totalBlocks
      && start < e <= g.totalBlocks && len == Min(max, e - start)
      && (forall b | g.dataStart <= b < start :: b in used) && (forall b | start <= b < e :: b !in used)
      && (e < g.totalBlocks ==> e in used)
  {
    var (start, len) := AllocRun(used, g, max).value;
    ScanFinds(used, g.dataStart, g.totalBlocks, false);
    var limit := Min(start + max, g.totalBlocks);
    ScanFinds(used, start + 1, limit, true);
    ScanFinds(used, start, g.totalBlocks, true);
    var e := Scan(used, start, g.totalBlocks, true);
    var r := Min(e, limit);
    ScanIs(used, start + 1, limit, true, r);
  }

  /** The lowest run with its end, and the slots once some of it is taken. */
  ghost predicate Lowest(used: set<nat>, g: Geometry, start: nat, e: nat) {
    && g.dataStart <= start < e <= g.totalBlocks
    && (forall b | g.dataStart <= b < start :: b in used) && (forall b | start <= b < e :: b !in used)
    && (e < g.totalBlocks ==> e in used)
  }

  lemma LowestRoom(used: set<nat>, g: Geometry, ext: seq<Extent>, start: nat, e: nat)
    requires Lowest(used, g, start, e) && |ext| <= MAX_EXTENTS
    ensures FirstFree(used, g) == start
    ensures Slots(used, g, ext) == 0 ==> Room(used, g, ext) == 0
    ensures Slots(used, g, ext) > 0 ==>
      Room(used, g, ext) == (e - start) + FreeRuns(used, e, g.totalBlocks, Slots(used, g, ext) - 1)
  {
    ScanIs(used, g.dataStart, g.totalBlocks, false, start);
    ScanIs(used, start, g.totalBlocks, true, e);
  }

  lemma NextShape(used: set<nat>, g: Geometry, ext: seq<Extent>, start: nat, len: nat)
    requires g.dataStart <= g.totalBlocks && FirstFree(used, g) == start && |ext| <= MAX_EXTENTS
    requires |NextExtents(ext, start, len)| <= MAX_EXTENTS
    ensures var ext' := NextExtents(ext, start, len);
      && ext' != [] && ext'[|ext'| - 1].start + ext'[|ext'| - 1].len == start + len
      && MAX_EXTENTS - |ext'| + 1 == Slots(used, g, ext)
  {
  }

  /** Part of the lowest run is taken: its rest continues the last extent. */
  lemma PartTaken(used: set<nat>, g: Geometry, ext: seq<Extent>, start: nat, len: nat, e: nat)
    requires Lowest(used, g, start, e) && start + len < e && |ext| <= MAX_EXTENTS
    requires |NextExtents(ext, start, len)| <= MAX_EXTENTS
    ensures Room(used, g, ext) == len + Room(MarkUsed(used, start, len), g, NextExtents(ext, start, len))
  {
    hide FreeRuns, NextExtents, MarkUsed;
    var used', ext' := MarkUsed(used, start, len), NextExtents(ext, start, len);
    LowestRoom(used, g, ext, start, e);
    NextShape(used, g, ext, start, len);
    MarkedFrom(used, g, start, len);
    LowestRoom(used', g, ext', start + len, e);
    RunsAgree(used, used', e, g.totalBlocks, Slots(used, g, ext) - 1);
  }

  /** All of it is taken: the next run needs a slot of its own. */
  lemma AllTaken(used: set<nat>, g: Geometry, ext: seq<Extent>, start: nat, e: nat)
    requires Lowest(used, g, start, e) && |ext| <= MAX_EXTENTS && |NextExtents(ext, start, e - start)| <= MAX_EXTENTS
    ensures Room(used, g, ext) ==
      (e - start) + Room(MarkUsed(used, start, e - start), g, NextExtents(ext, start, e - start))
  {
    hide FreeRuns, NextExtents, MarkUsed;
    var used', ext' := MarkUsed(used, start, e - start), NextExtents(ext, start, e - start);
    LowestRoom(used, g, ext, start, e);
    NextShape(used, g, ext, start, e - start);
    MarkedFrom(used, g, start, e - start);
    FullRun(used', g, e);
    RunsSkip(used', g.dataStart, e, g.totalBlocks, Slots(used', g, ext'));
    RunsAgree(used, used', e, g.totalBlocks, Slots(used, g, ext) - 1);
    if e == g.totalBlocks {
      EmptyRuns(used, e, Slots(used, g, ext) - 1);
    }
  }

  /** Taking part or all of the lowest run leaves as much room, less what was
      taken. */
  lemma RoomAfterRun(used: set<nat>, g: Geometry, ext: seq<Extent>, max: nat)
    requires g.dataStart <= g.totalBlocks && max > 0 && AllocRun(used, g, max).Some? && |ext| <= MAX_EXTENTS
    requires var (start, len) := AllocRun(used, g, max).value; |NextExtents(ext, start, len)| <= MAX_EXTENTS
    ensures var (start, len) := AllocRun(used, g, max).value;
      && len <= max
      && Room(used, g, ext) == len + Room(MarkUsed(used, start, len), g, NextExtents(ext, start, len))
  {
    hide FreeRuns, NextExtents, MarkUsed, AllocRun, Room, FirstFree;
    var (start, len) := AllocRun(used, g, max).value;
    RunTaken(used, g, max);
    var e := Scan(used, start, g.totalBlocks, true);
    if start + len < e {
      PartTaken(used, g, ext, start, len, e);
    } else {
      AllTaken(used, g, ext, start, e);
    }
  }

  /** A run that cannot be taken means there is no room. */
  lemma RoomAtEnd(used: set<nat>, g: Geometry, ext: seq<Extent>, max: nat)
    requires g.dataStart <= g.totalBlocks && max > 0 && |ext| <= MAX_EXTENTS
    requires var run := AllocRun(used, g, max);
      run.None? || |NextExtents(ext, run.value.0, run.value.1)| > MAX_EXTENTS
    ensures Room(used, g, ext) == 0
  {
    var run := AllocRun(used, g, max);
    if run.None? {
      ScanFinds(used, g.dataStart, g.totalBlocks, false);
      if Slots(used, g, ext) > 0 {
        NoRun(used, g.dataStart, g.totalBlocks, Slots(used, g, ext));
      }
    } else {
      RunTaken(used, g, max);
    }
  }

  /** Growing takes what is asked for or all the room there is, whichever is
      less, and room and blocks together stay the same. */
  lemma {:induction false} GrowTakes(used: set<nat>, g: Geometry, ext: seq<Extent>, remaining: nat)
    requires g.dataStart <= g.totalBlocks && |ext| <= MAX_EXTENTS
    ensures var r := Grow(used, g, ext, remaining);
      && |r.extents| <= MAX_EXTENTS
      && (r.ok <==> remaining <= Room(used, g, ext))
      && Allocated(r.extents) == Allocated(ext) + Min(remaining, Room(used, g, ext))
      && Room(r.used, g, r.extents) == Room(used, g, ext) - Min(remaining, Room(used, g, ext))
    decreases remaining
  {
    hide AllocRun, NextExtents, MarkUsed, Room, Allocated;
    if remaining > 0 {
      var run := AllocRun(used, g, remaining);
      if run.None? || |NextExtents(ext, run.value.0, run.value.1)| > MAX_EXTENTS {
        RoomAtEnd(used, g, ext, remaining);
      } else {
        var (start, len) := run.value;
        RoomAfterRun(used, g, ext, remaining);
        NextAllocated(ext, start, len);
        GrowTakes(MarkUsed(used, start, len), g, NextExtents(ext, start, len), remaining - len);
      }
    }
  }

  lemma NextAllocated(ext: seq<Extent>, start: nat, len: nat)
    ensures Allocated(NextExtents(ext, start, len)) == Allocated(ext) + len
  {
    NextBlocks(ext, start, len);
  }

  /** `ensure_blocks` succeeds if and only if the blocks the file has and the
      room the bitmap leaves it cover the need; otherwise it takes all of that
      room before it fails. Either way what the file can reach is unchanged. */
  lemma EnsureIff(used: set<nat>, g: Geometry, ext: seq<Extent>, needed: nat)
    requires g.dataStart <= g.totalBlocks && |ext| <= MAX_EXTENTS
    ensures var r := EnsureBlocks(used, g, ext, needed);
      var reach := Allocated(ext) + Room(used, g, ext);
      && |r.extents| <= MAX_EXTENTS
      && (r.ok <==> needed <= reach)
      && (!r.ok ==> Allocated(r.extents) == reach)
      && Allocated(r.extents) + Room(r.used, g, r.extents) == reach
  {
    hide Room, Allocated, Grow;
    if needed > Allocated(ext) {
      GrowTakes(used, g, ext, needed - Allocated(ext));
    }
  }

  /** A failed growth leaves bitmap and extents as they were if and only if no
      data block is free, or all six extents are taken and the lowest free block
      does not continue the last. */
  lemma FailedGrowthIff(used: set<nat>, g: Geometry, ext: seq<Extent>, needed: nat)
    requires g.dataStart <= g.totalBlocks && |ext| <= MAX_EXTENTS && !EnsureBlocks(used, g, ext, needed).ok
    ensures var r := EnsureBlocks(used, g, ext, needed);
      r.used == used && r.extents == ext <==>
        || (forall b | g.dataStart <= b < g.totalBlocks :: b in used)
        || (|ext| == MAX_EXTENTS && !Continues(used, g, ext))
  {
    hide FreeRuns, Grow, Allocated;
    EnsureIff(used, g, ext, needed);
    var r := EnsureBlocks(used, g, ext, needed);
    if Slots(used, g, ext) > 0 {
      NoRun(used, g.dataStart, g.totalBlocks, Slots(used, g, ext));
    } else {
      assert Room(used, g, ext) == 0 by { NoSlots(used, g.dataStart, g.totalBlocks); }
    }
    if Room(used, g, ext) == 0 {
      RoomlessGrowth(used, g, ext, needed - Allocated(ext));
    }
  }

  lemma NoSlots(used: set<nat>, lo: nat, hi: nat)
    requires lo <= hi
    ensures FreeRuns(used, lo, hi, 0) == 0
  {
  }

  lemma RoomlessGrowth(used: set<nat>, g: Geometry, ext: seq<Extent>, remaining: nat)
    requires g.dataStart <= g.totalBlocks && |ext| <= MAX_EXTENTS && remaining > 0 && Room(used, g, ext) == 0
    ensures Grow(used, g, ext, remaining) == Growth(false, used, ext)
  {
    hide NextExtents, MarkUsed, Room, AllocRun;
    var run := AllocRun(used, g, remaining);
    if run.Some? && |NextExtents(ext, run.value.0, run.value.1)| <= MAX_EXTENTS {
      RoomAfterRun(used, g, ext, remaining);
      RunTaken(used, g, remaining);
    }
  }

  lemma MarkedFrom(used: set<nat>, g: Geometry, start: nat, len: nat)
    requires forall b | g.dataStart <= b < start :: b in used
    ensures var used' := MarkUsed(used, start, len);
      && (forall b | g.dataStart <= b < start + len :: b in used')
      && (forall b | start + len <= b :: b in used' <==> b in used)
  {
    forall b: nat
      ensures b in MarkUsed(used, start, len) <==> start <= b < start + len || b in used
    {
      MarkUsedHas(used, start, len, b);
    }
  }

  /** After a whole run, the lowest free block does not continue it. */
  lemma FullRun(used: set<nat>, g: Geometry, e: nat)
    requires g.dataStart <= e <= g.totalBlocks && (forall b | g.dataStart <= b < e :: b in used)
    requires e < g.totalBlocks ==> e in used
    ensures e < g.totalBlocks ==> FirstFree(used, g) != e
    ensures e == g.totalBlocks ==> FirstFree(used, g) == e && forall n :: FreeRuns(used, e, e, n) == 0
  {
    ScanFinds(used, g.dataStart, g.totalBlocks, false);
    forall n
      ensures FreeRuns(used, e, e, n) == 0
    {
      EmptyRuns(used, e, n);
    }
  }
}
