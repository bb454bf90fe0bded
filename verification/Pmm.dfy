/** The physical frame allocator: a bitmap over one pool of frames, built from
    the boot memory map. */
module Pmm {
  import opened Bytes
  import Bitmap
  import Crc

  const PAGE_SIZE: nat := 4096
  const BITMAP_BYTES: nat := 65536
  const USABLE: nat := 0
  const MAX_ADDR: nat := 0xffff_ffff_ffff_ffff

  datatype Region = Region(base: nat, length: nat, kind: nat)

  type Region64 = r: Region | r.base <= MAX_ADDR && r.length <= MAX_ADDR witness Region(0, 0, 0)

  // ---- addresses ----------------------------------------------------------------------

  function SatAdd(a: nat, b: nat): nat { if a + b > MAX_ADDR then MAX_ADDR else a + b }

  function AlignDown(a: nat): nat { a - a % PAGE_SIZE }

  function AlignUp(a: nat): nat { AlignDown(SatAdd(a, PAGE_SIZE - 1)) }

  /** The page at `a` lies wholly inside a usable region. */
  predicate Contains(r: Region, a: nat) { r.kind == USABLE && r.base <= a && a + PAGE_SIZE <= r.base + r.length }

  /** The pages of a region that the pool takes: all but one ending at 2^64. */
  predicate WithinRegion(a: nat, r: Region) { Contains(r, a) && a + PAGE_SIZE <= MAX_ADDR }

  predicate Usable(a: nat, regions: seq<Region64>) { exists r | r in regions :: WithinRegion(a, r) }

  /** The code's test against the saturating end of a region, for every page. */
  lemma WithinIsContainment(a: nat, r: Region64)
    ensures r.kind == USABLE && r.base <= a && a + PAGE_SIZE <= SatAdd(r.base, r.length) <==>
      Contains(r, a) && a + PAGE_SIZE <= MAX_ADDR
  {
  }

  /** A page of the address space is taken if and only if some usable region
      contains it and it does not end at 2^64. */
  lemma UsableIff(a: nat, regions: seq<Region64>)
    requires a % PAGE_SIZE == 0 && a <= MAX_ADDR
    ensures Usable(a, regions) <==> (exists r :: r in regions && Contains(r, a)) && a + PAGE_SIZE != MAX_ADDR + 1
  {
    LastPage(a);
  }

  lemma LastPage(a: nat)
    requires a % PAGE_SIZE == 0 && a <= MAX_ADDR
    ensures a + PAGE_SIZE <= MAX_ADDR <==> a + PAGE_SIZE != MAX_ADDR + 1
  {
  }

  /** The two topmost pages of the address space, both inside one usable region:
      the lower one is taken, the upper one is not. */
  lemma TopPageLost()
    ensures var top := Region(0xffff_ffff_ffff_e000, 0x2000, USABLE);
      && Contains(top, 0xffff_ffff_ffff_f000) && !Usable(0xffff_ffff_ffff_f000, [top])
      && Usable(0xffff_ffff_ffff_e000, [top])
  {
    var top: Region64 := Region(0xffff_ffff_ffff_e000, 0x2000, USABLE);
    assert [top][0] == top && WithinRegion(0xffff_ffff_ffff_e000, top);
  }

  lemma PageAligned(a: nat, k: nat)
    requires a % PAGE_SIZE == 0
    ensures (a + k * PAGE_SIZE) % PAGE_SIZE == 0
  {
  }

  /** The aligned interior of a region holds exactly the aligned pages within. */
  lemma Interior(a: nat, r: Region64)
    requires a % PAGE_SIZE == 0 && r.kind == USABLE
    ensures WithinRegion(a, r) <==> AlignUp(r.base) <= a && a + PAGE_SIZE <= AlignDown(SatAdd(r.base, r.length))
  {
    var e := SatAdd(r.base, r.length);
    WithinIsContainment(a, r);
    AlignDownIs(e, a + PAGE_SIZE);
    AlignUpIs(r.base, a);
  }

  /** Rounding down keeps exactly the multiples at or below. */
  lemma AlignDownIs(e: nat, m: nat)
    requires m % PAGE_SIZE == 0
    ensures m <= AlignDown(e) <==> m <= e
  {
  }

  /** Rounding up, where it does not saturate, keeps exactly those at or above;
      where it does, no page fits above the base anyway. */
  lemma AlignUpIs(b: nat, a: nat)
    requires a % PAGE_SIZE == 0 && b <= MAX_ADDR
    ensures a + PAGE_SIZE <= MAX_ADDR ==> (AlignUp(b) <= a <==> b <= a)
  {
    if b + (PAGE_SIZE - 1) <= MAX_ADDR {
      AlignDownIs(b + (PAGE_SIZE - 1), a + PAGE_SIZE);
      assert AlignUp(b) % PAGE_SIZE == 0;
    } else {
      assert AlignUp(b) == MAX_ADDR - (PAGE_SIZE - 1);
    }
  }

  // ---- the bitmap as a set --------------------------------------------------------------

  /** The frames below `total` whose bit is clear. */
  ghost function FreeIn(bits: seq<u8>, total: nat): set<nat> {
    set i | 0 <= i < total && !Bitmap.BitGet(bits, i)
  }

  lemma FreePut(bits: seq<u8>, total: nat, i: nat, v: bool)
    requires i < |bits| * 8
    ensures FreeIn(Bitmap.BitPut(bits, i, v), total) ==
      if v then FreeIn(bits, total) - {i} else if i < total then FreeIn(bits, total) + {i} else FreeIn(bits, total)
  {
    hide Bitmap.BitGet, Bitmap.BitPut;
    forall j: nat
      ensures Bitmap.BitGet(Bitmap.BitPut(bits, i, v), j) == if j == i then v else Bitmap.BitGet(bits, j)
    {
      Bitmap.BitPutGet(bits, i, v, j);
    }
  }

  /** A frame number is the least of a set. */
  ghost predicate Least(s: set<nat>, i: nat) { i in s && forall j | j in s :: i <= j }

  /** `count` frames from `i` on are all in `s`. */
  ghost predicate RunOf(s: set<nat>, i: nat, count: nat) { forall j | i <= j < i + count :: j in s }

  class FrameAllocator {
    const bitmap: array<u8>
    const totalFrames: nat
    const base: nat
    var usableFrames: nat
    var freeFrames: nat

    ghost function Free(): set<nat>
      reads bitmap
    {
      FreeIn(bitmap[..], totalFrames)
    }

    /** `freeFrames` is the number of clear in-range bits. */
    ghost predicate Valid()
      reads this, bitmap
    {
      totalFrames <= bitmap.Length * 8 && freeFrames == |Free()|
    }

    /** A pool with every frame free, over bitmap storage of at least its size. */
    constructor (start: nat, size: nat, storage: array<u8>)
      requires size / PAGE_SIZE <= storage.Length * 8
      modifies storage
      ensures bitmap == storage && base == start && totalFrames == size / PAGE_SIZE && usableFrames == totalFrames
      ensures Valid() && Free() == Below(totalFrames)
    {
      var total := size / PAGE_SIZE;
      bitmap, totalFrames, base := storage, total, start;
      usableFrames, freeFrames := total, total;
      new;
      var n := Min((total + 7) / 8, storage.Length);
      for i := 0 to n
        modifies storage
        invariant forall j | 0 <= j < i :: storage[j] == 0
      {
        storage[i] := 0;
      }
      ZeroFree(storage[..], total, n);
    }

    method TestFrame(i: nat) returns (used: bool)
      requires i < bitmap.Length * 8
      ensures used == Bitmap.BitGet(bitmap[..], i)
      ensures used || totalFrames <= i <==> i !in Free()
    {
      used := Bitmap.TestBit(bitmap[i / 8] as nat, i % 8);
    }

    method PutFrame(i: nat, v: bool)
      requires i < bitmap.Length * 8
      modifies bitmap
      ensures bitmap[..] == Bitmap.BitPut(old(bitmap[..]), i, v)
      ensures Free() == if v then old(Free()) - {i} else if i < totalFrames then old(Free()) + {i} else old(Free())
    {
      hide Bitmap.PutBit;
      FreePut(bitmap[..], totalFrames, i, v);
      ByteBound();
      bitmap[i / 8] := Bitmap.PutBit(bitmap[i / 8] as nat, i % 8, v, 8) as u8;
    }

    method ReserveAll()
      requires Valid()
      modifies this`usableFrames, this`freeFrames, bitmap
      ensures Valid() && Free() == {} && usableFrames == 0
    {
      for i := 0 to bitmap.Length
        modifies bitmap
        invariant forall j | 0 <= j < i :: bitmap[j] == 255
      {
        bitmap[i] := 255;
      }
      usableFrames, freeFrames := 0, 0;
      FullFree(bitmap[..], totalFrames);
    }

    /** The lowest free frame, found byte by byte. Padding bits past the pool may
        be marked on the way; they are never handed out. */
    method AllocFrame() returns (frame: Option<nat>)
      requires Valid()
      modifies this`freeFrames, bitmap
      ensures Valid()
      ensures frame.None? <==> old(Free()) == {}
      ensures frame.None? ==> Free() == old(Free())
      ensures frame.Some? ==> Least(old(Free()), frame.value) && Free() == old(Free()) - {frame.value}
    {
      for b := 0 to bitmap.Length
        invariant Free() == old(Free()) && freeFrames == old(freeFrames)
        invariant forall i | 0 <= i < b * 8 :: i !in Free()
      {
        if bitmap[b] != 255 {
          frame := AllocInByte(b);
          if frame.Some? {
            return;
          }
        } else {
          FullByte(bitmap[..], totalFrames, b);
        }
      }
      assert forall i | 0 <= i < totalFrames :: i !in Free();
      return None;
    }

    /** The lowest free frame of one byte. */
    method AllocInByte(b: nat) returns (frame: Option<nat>)
      requires Valid() && b < bitmap.Length && forall i | 0 <= i < b * 8 :: i !in Free()
      modifies this`freeFrames, bitmap
      ensures Valid()
      ensures frame.None? ==> Free() == old(Free()) && freeFrames == old(freeFrames)
      ensures frame.None? ==> forall i | 0 <= i < b * 8 + 8 :: i !in Free()
      ensures frame.Some? ==> Least(old(Free()), frame.value) && Free() == old(Free()) - {frame.value}
    {
      hide FreeIn, Bitmap.BitGet, Bitmap.BitPut;
      ghost var free := Free();
      for k := 0 to 8
        invariant Free() == free && freeFrames == old(freeFrames)
        invariant forall i | 0 <= i < b * 8 + k :: i !in Free()
      {
        var i := b * 8 + k;
        var used := TestFrame(i);
        if !used {
          PutFrame(i, true);
          if i < totalFrames {
            assert |free - {i}| == |free| - 1;
            freeFrames := freeFrames - 1;
            return Some(i);
          }
        }
      }
      return None;
    }

    /** The lowest-starting run of `count` free frames, if there is one. */
    method AllocContiguous(count: nat) returns (start: Option<nat>)
      requires Valid()
      modifies this`freeFrames, bitmap
      ensures Valid()
      ensures start.None? <==> count == 0 || forall i: nat :: !RunOf(old(Free()), i, count)
      ensures start.None? ==> Free() == old(Free())
      ensures start.Some? ==>
        && RunOf(old(Free()), start.value, count)
        && (forall i: nat | RunOf(old(Free()), i, count) :: start.value <= i)
        && Free() == old(Free()) - Span(start.value, count)
        && freeFrames == old(freeFrames) - count
    {
      if count == 0 {
        return None;
      }
      OneRun(old(Free()));
      if count == 1 {
        start := AllocFrame();
        if start.Some? {
          SpanOne(start.value);
        }
        return;
      }
      start := FindRun(count);
      if start.Some? {
        TakeRun(start.value, count);
      }
    }

    method FindRun(count: nat) returns (start: Option<nat>)
      requires Valid() && count >= 2
      ensures start.None? <==> forall i: nat :: !RunOf(Free(), i, count)
      ensures start.Some? ==> RunOf(Free(), start.value, count) && start.value + count <= totalFrames
      ensures start.Some? ==> forall i: nat | RunOf(Free(), i, count) :: start.value <= i
    {
      hide RunOf;
      ghost var free := Free();
      var runLen := 0;
      RunNone(free, 0);
      TooShort(free, 0, count);
      for i := 0 to totalFrames
        invariant runLen <= i && runLen < count && RunOf(free, i - runLen, runLen)
        invariant i - runLen > 0 ==> i - runLen - 1 !in free
        invariant forall x: nat | x + count <= i :: !RunOf(free, x, count)
      {
        var used := TestFrame(i);
        if !used {
          RunGrow(free, i, runLen);
          runLen := runLen + 1;
          NoEarlierRun(free, i, runLen, count);
          if runLen == count {
            var first: nat := i + 1 - count;
            assert RunOf(Free(), first, count);
            return Some(first);
          }
        } else {
          RunBroken(free, i, count);
          runLen := 0;
          RunNone(free, i + 1);
        }
      }
      RunsBounded(free, totalFrames, count);
      return None;
    }

    method TakeRun(start: nat, count: nat)
      requires Valid() && start + count <= totalFrames && RunOf(Free(), start, count)
      modifies this`freeFrames, bitmap
      ensures Valid() && freeFrames == old(freeFrames) - count
      ensures Free() == old(Free()) - Span(start, count)
    {
      hide FreeIn, Span;
      ghost var free := Free();
      assert Span(start, 0) == {} by { SpanIs(start, 0); }
      for k := 0 to count
        invariant freeFrames == old(freeFrames) && |Free()| == |free| - k && Free() == free - Span(start, k)
      {
        SpanNext(free, start, k);
        PutFrame(start + k, true);
      }
      freeFrames := freeFrames - count;
    }

    method FreeFrame(addr: nat)
      requires Valid()
      modifies this`freeFrames, bitmap
      ensures Valid()
      ensures Free() ==
        if base <= addr && (addr - base) / PAGE_SIZE < totalFrames then old(Free()) + {(addr - base) / PAGE_SIZE}
        else old(Free())
    {
      if addr < base {
        return;
      }
      var i := (addr - base) / PAGE_SIZE;
      if i >= totalFrames {
        return;
      }
      var used := TestFrame(i);
      if used {
        PutFrame(i, false);
        freeFrames := freeFrames + 1;
      }
    }

    /** Frees the complete pages of a usable region; pages already free are not
        counted again. */
    method MarkRegionFree(region: Region64) returns (newly: nat)
      requires Valid() && base % PAGE_SIZE == 0 && base + totalFrames * PAGE_SIZE <= MAX_ADDR && region.kind == USABLE
      modifies this`usableFrames, this`freeFrames, bitmap
      ensures Valid() && usableFrames == old(usableFrames) + newly && freeFrames == old(freeFrames) + newly
      ensures forall i ::
        i in Free() <==> i in old(Free()) || (0 <= i < totalFrames && WithinRegion(base + i * PAGE_SIZE, region))
    {
      hide FreeIn, WithinRegion;
      var start := Max(AlignUp(region.base), base);
      var end := Min(AlignDown(SatAdd(region.base, region.length)), base + totalFrames * PAGE_SIZE);
      newly := 0;
      if start >= end {
        NothingInside(base, totalFrames, region);
        return;
      }
      var first, last := (start - base) / PAGE_SIZE, (end - base) / PAGE_SIZE;
      PagesInside(base, totalFrames, region, first, last);
      newly := ClearRun(first, Min(last, totalFrames));
      usableFrames, freeFrames := usableFrames + newly, freeFrames + newly;
    }

    /** Clears the bits `[first, limit)`, counting those that were set. */
    method ClearRun(first: nat, limit: nat) returns (newly: nat)
      requires first <= limit <= totalFrames <= bitmap.Length * 8
      modifies bitmap
      ensures |Free()| == old(|Free()|) + newly
      ensures forall i :: i in Free() <==> i in old(Free()) || first <= i < limit
    {
      hide FreeIn, Bitmap.BitGet, Bitmap.BitPut;
      newly := 0;
      for k := first to limit
        invariant |Free()| == old(|Free()|) + newly
        invariant forall i :: i in Free() <==> i in old(Free()) || first <= i < k
      {
        var used := TestFrame(k);
        if used {
          PutFrame(k, false);
          newly := newly + 1;
        }
      }
    }

    method MarkUsable(regions: seq<Region64>)
      requires Valid() && Free() == {} && usableFrames == freeFrames
      requires base % PAGE_SIZE == 0 && base + totalFrames * PAGE_SIZE <= MAX_ADDR
      modifies this`usableFrames, this`freeFrames, bitmap
      ensures Valid() && usableFrames == freeFrames
      ensures forall i :: i in Free() <==> 0 <= i < totalFrames && Usable(base + i * PAGE_SIZE, regions)
    {
      hide FreeIn, WithinRegion;
      for k := 0 to |regions|
        invariant Valid() && usableFrames == freeFrames
        invariant forall i :: i in Free() <==> 0 <= i < totalFrames && Usable(base + i * PAGE_SIZE, regions[..k])
      {
        UsableNext(regions, k);
        if regions[k].kind == USABLE {
          var newly := MarkRegionFree(regions[k]);
        }
      }
      assert regions[..|regions|] == regions;
    }
  }

  lemma UsableNext(regions: seq<Region64>, k: nat)
    requires k < |regions|
    ensures forall a: nat :: Usable(a, regions[..k + 1]) <==> Usable(a, regions[..k]) || WithinRegion(a, regions[k])
    ensures regions[k].kind != USABLE ==> forall a: nat :: !WithinRegion(a, regions[k])
  {
    assert regions[..k + 1] == regions[..k] + [regions[k]];
  }

  lemma NothingInside(base: nat, total: nat, r: Region64)
    requires base % PAGE_SIZE == 0 && base + total * PAGE_SIZE <= MAX_ADDR && r.kind == USABLE
    requires Max(AlignUp(r.base), base) >= Min(AlignDown(SatAdd(r.base, r.length)), base + total * PAGE_SIZE)
    ensures forall i | 0 <= i < total :: !WithinRegion(base + i * PAGE_SIZE, r)
  {
    forall i | 0 <= i < total
      ensures !WithinRegion(base + i * PAGE_SIZE, r)
    {
      PageAligned(base, i);
      Interior(base + i * PAGE_SIZE, r);
    }
  }

  lemma PagesInside(base: nat, total: nat, r: Region64, first: nat, last: nat)
    requires base % PAGE_SIZE == 0 && base + total * PAGE_SIZE <= MAX_ADDR && r.kind == USABLE
    requires var start := Max(AlignUp(r.base), base);
      var end := Min(AlignDown(SatAdd(r.base, r.length)), base + total * PAGE_SIZE);
      start < end && first == (start - base) / PAGE_SIZE && last == (end - base) / PAGE_SIZE
    ensures first <= last <= total
    ensures forall i | 0 <= i < total :: WithinRegion(base + i * PAGE_SIZE, r) <==> first <= i < last
  {
    forall i | 0 <= i < total
      ensures WithinRegion(base + i * PAGE_SIZE, r) <==> first <= i < last
    {
      PageAligned(base, i);
      Interior(base + i * PAGE_SIZE, r);
    }
  }

  lemma FullFree(bits: seq<u8>, total: nat)
    requires total <= |bits| * 8 && forall j | 0 <= j < |bits| :: bits[j] == 255
    ensures FreeIn(bits, total) == {}
  {
    forall i | 0 <= i < total
      ensures Bitmap.BitGet(bits, i)
    {
      FullTest(i % 8);
    }
  }

  lemma FullTest(k: nat)
    requires k < 8
    ensures Bitmap.TestBit(255, k)
  {
    AllOnes(8, k);
    ByteBound();
  }

  lemma {:induction false} Pow2Positive(w: nat)
    ensures Crc.Pow2(w) >= 1
  {
    if w > 0 {
      Pow2Positive(w - 1);
    }
  }

  lemma {:induction false} AllOnes(w: nat, k: nat)
    requires k < w
    ensures Crc.Pow2(w) >= 1 && Bitmap.TestBit(Crc.Pow2(w) - 1, k)
    decreases w
  {
    Pow2Positive(w - 1);
    if k > 0 {
      AllOnes(w - 1, k - 1);
      assert (Crc.Pow2(w) - 1) / 2 == Crc.Pow2(w - 1) - 1;
    }
  }

  lemma FullByte(bits: seq<u8>, total: nat, b: nat)
    requires b < |bits| && bits[b] == 255
    ensures forall i | b * 8 <= i < b * 8 + 8 :: i !in FreeIn(bits, total)
  {
    forall i | b * 8 <= i < b * 8 + 8
      ensures Bitmap.BitGet(bits, i)
    {
      FullTest(i % 8);
    }
  }

  /** A run of one is a member. */
  lemma OneRun(s: set<nat>)
    ensures s == {} <==> forall i: nat :: !RunOf(s, i, 1)
    ensures forall i: nat :: RunOf(s, i, 1) <==> i in s
  {
    forall i: nat
      ensures RunOf(s, i, 1) <==> i in s
    {
      if RunOf(s, i, 1) {
        assert i in s;
      }
    }
  }

  lemma RunNone(s: set<nat>, i: nat)
    ensures RunOf(s, i, 0)
  {
  }

  lemma RunGrow(s: set<nat>, i: nat, len: nat)
    requires len <= i && i in s && RunOf(s, i - len, len)
    ensures RunOf(s, i - len, len + 1)
  {
  }

  lemma TooShort(s: set<nat>, i: nat, count: nat)
    requires i < count
    ensures forall x: nat | x + count <= i :: !RunOf(s, x, count)
  {
  }

  /** A used frame ends every run that would reach it. */
  lemma RunBroken(s: set<nat>, i: nat, count: nat)
    requires i !in s && count > 0 && forall x: nat | x + count <= i :: !RunOf(s, x, count)
    ensures forall x: nat | x + count <= i + 1 :: !RunOf(s, x, count)
  {
  }

  lemma RunsBounded(s: set<nat>, total: nat, count: nat)
    requires count > 0 && (forall i | i in s :: i < total) && forall x: nat | x + count <= total :: !RunOf(s, x, count)
    ensures forall x: nat :: !RunOf(s, x, count)
  {
    forall x: nat
      ensures !RunOf(s, x, count)
    {
      if x + count > total {
        assert x + count - 1 !in s;
      }
    }
  }

  /** Where the current run starts, nothing shorter was complete earlier. */
  lemma NoEarlierRun(s: set<nat>, i: nat, len: nat, count: nat)
    requires 1 <= len <= i + 1 && len <= count && count >= 2
    requires i + 1 - len > 0 ==> i - len !in s
    requires forall x: nat | x + count <= i :: !RunOf(s, x, count)
    ensures len < count ==> forall x: nat | x + count <= i + 1 :: !RunOf(s, x, count)
    ensures len == count ==> forall x: nat | RunOf(s, x, count) :: i + 1 - count <= x
  {
    if len < count && i + 1 >= count {
      assert i + 1 - count <= i - len < i + 1 - count + count;
    }
  }

  /** The frame numbers `[start, start + count)`. */
  ghost function Span(start: nat, count: nat): set<nat> {
    if count == 0 then {} else Span(start, count - 1) + {start + count - 1}
  }

  lemma {:induction false} SpanIs(start: nat, count: nat)
    ensures forall i :: i in Span(start, count) <==> start <= i < start + count
  {
    if count > 0 {
      SpanIs(start, count - 1);
    }
  }

  lemma SpanNext(s: set<nat>, start: nat, k: nat)
    requires start + k in s
    ensures start + k in s - Span(start, k)
    ensures s - Span(start, k) - {start + k} == s - Span(start, k + 1)
    ensures |s - Span(start, k + 1)| == |s - Span(start, k)| - 1
  {
    SpanIs(start, k);
    var rest := s - Span(start, k);
    assert rest - {start + k} == s - Span(start, k + 1);
  }

  lemma SpanOne(start: nat)
    ensures Span(start, 1) == {start}
  {
    assert Span(start, 0) == {};
  }

  lemma ByteBound()
    ensures Crc.Pow2(8) == 256
  {
  }

  lemma ZeroFree(bits: seq<u8>, total: nat, n: nat)
    requires total <= n * 8 && n <= |bits| && forall j | 0 <= j < n :: bits[j] == 0
    ensures FreeIn(bits, total) == Below(total) && |FreeIn(bits, total)| == total
  {
    BelowIs(total);
    forall i | 0 <= i < total
      ensures !Bitmap.BitGet(bits, i)
    {
      ZeroTest(i % 8);
    }
    assert FreeIn(bits, total) == Below(total);
  }

  lemma {:induction false} ZeroTest(k: nat)
    ensures !Bitmap.TestBit(0, k)
  {
    if k > 0 {
      ZeroTest(k - 1);
    }
  }

  /** The frame numbers below `n`. */
  ghost function Below(n: nat): set<nat> { if n == 0 then {} else Below(n - 1) + {n - 1} }

  lemma {:induction false} BelowIs(n: nat)
    ensures (forall i :: i in Below(n) <==> 0 <= i < n) && |Below(n)| == n
  {
    if n > 0 {
      BelowIs(n - 1);
    }
  }

  // ---- building the pool from the memory map -------------------------------------------------

  /** The pages of one region that count for the pool. */
  predicate Counts(r: Region64) {
    r.kind == USABLE && r.length >= PAGE_SIZE && AlignUp(r.base) < AlignDown(SatAdd(r.base, r.length))
  }

  lemma WithinCounts(a: nat, r: Region64)
    requires a % PAGE_SIZE == 0 && WithinRegion(a, r)
    ensures Counts(r) && AlignUp(r.base) <= a && a + PAGE_SIZE <= AlignDown(SatAdd(r.base, r.length))
  {
    Interior(a, r);
  }

  lemma BoundsAligned(r: Region64)
    ensures AlignUp(r.base) % PAGE_SIZE == 0 && AlignDown(SatAdd(r.base, r.length)) % PAGE_SIZE == 0
    ensures AlignDown(SatAdd(r.base, r.length)) <= MAX_ADDR
  {
  }

  /** `lo` is the lowest usable page and `hi` the end of the highest. */
  ghost predicate Spans(regions: seq<Region64>, lo: nat, hi: nat) {
    && lo % PAGE_SIZE == 0 && hi % PAGE_SIZE == 0 && lo < hi <= MAX_ADDR
    && Usable(lo, regions) && hi >= PAGE_SIZE && Usable(hi - PAGE_SIZE, regions)
    && forall a: nat | a % PAGE_SIZE == 0 && Usable(a, regions) :: lo <= a && a + PAGE_SIZE <= hi
  }

  ghost predicate NoPage(regions: seq<Region64>) { forall a: nat | a % PAGE_SIZE == 0 :: !Usable(a, regions) }

  /** A counted region contributes its first and its last page. */
  lemma CountsEnds(r: Region64)
    requires Counts(r)
    ensures var lo, hi := AlignUp(r.base), AlignDown(SatAdd(r.base, r.length));
      hi >= PAGE_SIZE && WithinRegion(lo, r) && WithinRegion(hi - PAGE_SIZE, r)
  {
    var lo, hi := AlignUp(r.base), AlignDown(SatAdd(r.base, r.length));
    BoundsAligned(r);
    assert hi >= lo + PAGE_SIZE;
    Interior(lo, r);
    Interior(hi - PAGE_SIZE, r);
  }

  /** Both ends of the pool are ends of counted regions. */
  ghost predicate Attained(regions: seq<Region64>, n: nat, first: nat, last: nat) {
    && (exists i :: 0 <= i < n && i < |regions| && Counts(regions[i]) && AlignUp(regions[i].base) == first)
    && (exists i :: 0 <= i < n && i < |regions| && Counts(regions[i])
          && AlignDown(SatAdd(regions[i].base, regions[i].length)) == last)
  }

  lemma AttainedNext(regions: seq<Region64>, n: nat, first: nat, last: nat, any: bool)
    requires n < |regions| && Counts(regions[n]) && (any ==> Attained(regions, n, first, last))
    ensures var start, end := AlignUp(regions[n].base), AlignDown(SatAdd(regions[n].base, regions[n].length));
      Attained(regions, n + 1, if any then Min(first, start) else start, if any then Max(last, end) else end)
  {
    hide AlignUp, AlignDown, SatAdd;
  }

  lemma AttainedUsable(regions: seq<Region64>, first: nat, last: nat)
    requires Attained(regions, |regions|, first, last)
    ensures Usable(first, regions) && last >= PAGE_SIZE && Usable(last - PAGE_SIZE, regions)
  {
    hide AlignUp, AlignDown, SatAdd, WithinRegion;
    var i :| 0 <= i < |regions| && Counts(regions[i]) && AlignUp(regions[i].base) == first;
    CountsEnds(regions[i]);
    var j :| 0 <= j < |regions| && Counts(regions[j]) && AlignDown(SatAdd(regions[j].base, regions[j].length)) == last;
    CountsEnds(regions[j]);
  }

  /** Lowest and highest page boundary of the usable regions; none exactly when
      there is no usable page. */
  method UsablePoolBounds(regions: seq<Region64>) returns (bounds: Option<(nat, nat)>)
    ensures bounds.None? <==> NoPage(regions)
    ensures bounds.Some? ==> Spans(regions, bounds.value.0, bounds.value.1)
  {
    hide AlignUp, AlignDown, SatAdd, WithinRegion, Usable, Attained;
    var first: nat, last: nat := MAX_ADDR, 0;
    for i := 0 to |regions|
      invariant last == 0 || (first < last <= MAX_ADDR && first % PAGE_SIZE == 0 && last % PAGE_SIZE == 0)
      invariant last == 0 ==> first == MAX_ADDR
      invariant last != 0 ==> Attained(regions, i, first, last)
      invariant forall j | 0 <= j < i && Counts(regions[j]) ::
        first <= AlignUp(regions[j].base) && AlignDown(SatAdd(regions[j].base, regions[j].length)) <= last
    {
      var r := regions[i];
      if last != 0 {
        AttainedMore(regions, i, first, last);
      }
      if r.kind == USABLE && r.length >= PAGE_SIZE {
        var start, end := AlignUp(r.base), AlignDown(SatAdd(r.base, r.length));
        BoundsAligned(r);
        if start < end {
          AttainedNext(regions, i, first, last, last != 0);
          first, last := Min(first, start), Max(last, end);
        }
      }
    }
    forall a: nat | a % PAGE_SIZE == 0 && Usable(a, regions)
      ensures first <= a && a + PAGE_SIZE <= last
    {
      UsableBounded(regions, first, last, a);
    }
    if first < last {
      AttainedUsable(regions, first, last);
      return Some((first, last));
    }
    return None;
  }

  lemma AttainedMore(regions: seq<Region64>, n: nat, first: nat, last: nat)
    requires n < |regions| && Attained(regions, n, first, last)
    ensures Attained(regions, n + 1, first, last)
  {
    hide AlignUp, AlignDown, SatAdd, Counts;
  }

  lemma UsableBounded(regions: seq<Region64>, first: nat, last: nat, a: nat)
    requires a % PAGE_SIZE == 0 && Usable(a, regions)
    requires forall j | 0 <= j < |regions| && Counts(regions[j]) ::
      first <= AlignUp(regions[j].base) && AlignDown(SatAdd(regions[j].base, regions[j].length)) <= last
    ensures first <= a && a + PAGE_SIZE <= last
  {
    hide AlignUp, AlignDown, SatAdd, WithinRegion;
    var r :| r in regions && WithinRegion(a, r);
    WithinCounts(a, r);
  }

  /** The bitmap for pages `lo` to `hi` does not fit its storage. */
  ghost predicate TooWide(regions: seq<Region64>) {
    exists lo: nat, hi: nat :: Spans(regions, lo, hi) && ((hi - lo) / PAGE_SIZE + 7) / 8 > BITMAP_BYTES
  }

  lemma SpansOnce(regions: seq<Region64>, lo: nat, hi: nat, lo': nat, hi': nat)
    requires Spans(regions, lo, hi) && Spans(regions, lo', hi')
    ensures lo == lo' && hi == hi'
  {
    hide Usable;
  }

  /** After booting over any region list the pool spans exactly the usable pages,
      precisely those are free, and each is counted once. Booting fails if and
      only if there is no usable page or the pool is too wide for its bitmap. */
  method Init(regions: seq<Region64>) returns (pmm: FrameAllocator?)
    ensures pmm == null <==> NoPage(regions) || TooWide(regions)
    ensures pmm != null ==>
      && fresh(pmm) && fresh(pmm.bitmap) && pmm.Valid()
      && Spans(regions, pmm.base, pmm.base + pmm.totalFrames * PAGE_SIZE)
      && (forall i :: i in pmm.Free() <==> 0 <= i < pmm.totalFrames && Usable(pmm.base + i * PAGE_SIZE, regions))
      && pmm.usableFrames == pmm.freeFrames > 0
  {
    hide FreeIn, Usable, NoPage, Spans;
    var bounds := UsablePoolBounds(regions);
    if bounds.None? {
      return null;
    }
    var (first, last) := bounds.value;
    SpanFacts(regions, first, last);
    var bytes := ((last - first) / PAGE_SIZE + 7) / 8;
    WideIff(regions, first, last);
    if bytes > BITMAP_BYTES {
      return null;
    }
    var storage := new u8[bytes];
    pmm := new FrameAllocator(first, last - first, storage);
    pmm.ReserveAll();
    pmm.MarkUsable(regions);
    // The lowest page is usable, so the pool is not empty.
    assert pmm.base + 0 * PAGE_SIZE == first;
    assert 0 in pmm.Free();
  }

  lemma SpanFacts(regions: seq<Region64>, lo: nat, hi: nat)
    requires Spans(regions, lo, hi)
    ensures lo % PAGE_SIZE == 0 && lo < hi <= MAX_ADDR && Usable(lo, regions) && !NoPage(regions)
    ensures lo + (hi - lo) / PAGE_SIZE * PAGE_SIZE == hi && (hi - lo) / PAGE_SIZE > 0
  {
  }

  lemma WideIff(regions: seq<Region64>, lo: nat, hi: nat)
    requires Spans(regions, lo, hi)
    ensures TooWide(regions) <==> ((hi - lo) / PAGE_SIZE + 7) / 8 > BITMAP_BYTES
  {
    hide Spans;
    if TooWide(regions) {
      var lo': nat, hi': nat :| Spans(regions, lo', hi') && ((hi' - lo') / PAGE_SIZE + 7) / 8 > BITMAP_BYTES;
      SpansOnce(regions, lo, hi, lo', hi');
    }
  }
}
