/** First-fit allocation over the set of used blocks, and growing a file by at
    most six extents. */
module FsAlloc {
  import opened Bytes
  import opened FsFormat
  import opened FsNode

  // ---- the blocks of a file, in logical order -------------------------------

  function Range(start: nat, len: nat): (s: seq<nat>)
    ensures |s| == len
  {
    seq(len, i requires 0 <= i => start + i)
  }

  function BlocksIn(ext: seq<Extent>, k: nat): (s: seq<nat>)
    requires k <= |ext|
    ensures |s| == AllocatedIn(ext, k)
  {
    if k == 0 then [] else BlocksIn(ext, k - 1) + Range(ext[k - 1].start, ext[k - 1].len)
  }

  /** The blocks of a file in logical order. */
  function Blocks(ext: seq<Extent>): (s: seq<nat>)
    ensures |s| == Allocated(ext)
  {
    BlocksIn(ext, |ext|)
  }

  /** The extent walk that turns a logical block into a physical one. */
  function PhysicalFrom(ext: seq<Extent>, k: nat, acc: nat, logical: nat): Option<nat>
    requires k <= |ext| && acc <= logical
    decreases |ext| - k
  {
    if k == |ext| then None
    else if logical < acc + ext[k].len then Some(ext[k].start + (logical - acc))
    else PhysicalFrom(ext, k + 1, acc + ext[k].len, logical)
  }

  function PhysicalBlock(ext: seq<Extent>, logical: nat): Option<nat> {
    PhysicalFrom(ext, 0, 0, logical)
  }

  lemma {:induction false} BlocksAgree(a: seq<Extent>, b: seq<Extent>, k: nat)
    requires k <= |a| && k <= |b| && forall i | 0 <= i < k :: a[i] == b[i]
    ensures BlocksIn(a, k) == BlocksIn(b, k)
  {
    if k > 0 {
      BlocksAgree(a, b, k - 1);
    }
  }

  lemma BlocksSnoc(ext: seq<Extent>, e: Extent)
    ensures Blocks(ext + [e]) == Blocks(ext) + Range(e.start, e.len)
  {
    BlocksAgree(ext + [e], ext, |ext|);
  }

  lemma BlocksWiden(ext: seq<Extent>, len: nat)
    requires ext != []
    ensures var last := ext[|ext| - 1];
      Blocks(ext[|ext| - 1 := Extent(last.start, last.len + len)])
      == Blocks(ext) + Range(last.start + last.len, len)
  {
    var last := ext[|ext| - 1];
    var ext' := ext[|ext| - 1 := Extent(last.start, last.len + len)];
    BlocksAgree(ext', ext, |ext| - 1);
    assert Range(last.start, last.len + len) == Range(last.start, last.len) + Range(last.start + last.len, len);
  }

  lemma {:induction false} BlocksPrefix(ext: seq<Extent>, k: nat, n: nat)
    requires k <= n <= |ext|
    ensures BlocksIn(ext, k) <= BlocksIn(ext, n)
    decreases n
  {
    if k < n {
      BlocksPrefix(ext, k, n - 1);
    }
  }

  lemma {:induction false} PhysicalFromBlocks(ext: seq<Extent>, k: nat, logical: nat)
    requires k <= |ext| && AllocatedIn(ext, k) <= logical
    ensures PhysicalFrom(ext, k, AllocatedIn(ext, k), logical)
         == if logical < |Blocks(ext)| then Some(Blocks(ext)[logical]) else None
    decreases |ext| - k
  {
    if k < |ext| {
      BlocksPrefix(ext, k + 1, |ext|);
      if logical < AllocatedIn(ext, k + 1) {
        assert Blocks(ext)[logical] == BlocksIn(ext, k + 1)[logical];
      } else {
        PhysicalFromBlocks(ext, k + 1, logical);
      }
    }
  }

  /** The walk indexes the file's block list. */
  lemma PhysicalIsIndex(ext: seq<Extent>, logical: nat)
    ensures PhysicalBlock(ext, logical)
         == if logical < |Blocks(ext)| then Some(Blocks(ext)[logical]) else None
  {
    PhysicalFromBlocks(ext, 0, logical);
  }

  predicate InExtent(e: Extent, b: nat) {
    e.start <= b < e.start + e.len
  }

  lemma {:induction false} InBlocks(ext: seq<Extent>, k: nat, b: nat)
    requires k <= |ext|
    ensures b in BlocksIn(ext, k) <==> exists i :: 0 <= i < k && InExtent(ext[i], b)
  {
    if k > 0 {
      InBlocks(ext, k - 1, b);
      if InExtent(ext[k - 1], b) {
        assert Range(ext[k - 1].start, ext[k - 1].len)[b - ext[k - 1].start] == b;
      }
    }
  }

  lemma BlocksInData(g: Geometry, ext: seq<Extent>, b: nat)
    requires forall k | 0 <= k < |ext| :: ExtentOk(g, ext[k])
    requires b in Blocks(ext)
    ensures g.dataStart <= b < g.totalBlocks
  {
    InBlocks(ext, |ext|, b);
  }

  ghost predicate NoDupIn(s: seq<nat>, n: nat)
    requires n <= |s|
  {
    n == 0 || (NoDupIn(s, n - 1) && forall i | 0 <= i < n - 1 :: s[i] != s[n - 1])
  }

  /** No block is listed twice. */
  ghost predicate NoDup(s: seq<nat>) { NoDupIn(s, |s|) }

  lemma {:induction false} NoDupAt(s: seq<nat>, n: nat, i: nat, j: nat)
    requires n <= |s| && NoDupIn(s, n) && i < j < n
    ensures s[i] != s[j]
    decreases n
  {
    if j < n - 1 {
      NoDupAt(s, n - 1, i, j);
    }
  }

  lemma {:induction false} NoDupPrefix(a: seq<nat>, b: seq<nat>, n: nat)
    requires n <= |a| && NoDupIn(a, n)
    ensures NoDupIn(a + b, n)
  {
    if n > 0 {
      NoDupPrefix(a, b, n - 1);
    }
  }

  lemma {:induction false} NoDupConcat(a: seq<nat>, b: seq<nat>, n: nat)
    requires n <= |b| && NoDup(a) && NoDupIn(b, n) && forall i | 0 <= i < n :: b[i] !in a
    ensures NoDupIn(a + b, |a| + n)
    decreases n
  {
    if n == 0 {
      NoDupPrefix(a, b, |a|);
    } else {
      NoDupConcat(a, b, n - 1);
      var s := a + b;
      assert s[|a| + n - 1] == b[n - 1];
      forall i | 0 <= i < |a| + n - 1
        ensures s[i] != b[n - 1]
      {
        if i < |a| {
          assert a[i] in a;
        }
      }
    }
  }

  lemma {:induction false} RangeNoDup(start: nat, len: nat, n: nat)
    requires n <= len
    ensures NoDupIn(Range(start, len), n)
  {
    if n > 0 {
      RangeNoDup(start, len, n - 1);
    }
  }

  // ---- first-fit allocation --------------------------------------------------

  function MarkUsed(used: set<nat>, start: nat, len: nat): set<nat> {
    if len == 0 then used else MarkUsed(used, start, len - 1) + {start + len - 1}
  }

  function MarkFree(used: set<nat>, start: nat, len: nat): set<nat> {
    if len == 0 then used else MarkFree(used, start, len - 1) - {start + len - 1}
  }

  lemma {:induction false} MarkUsedHas(used: set<nat>, start: nat, len: nat, b: nat)
    ensures b in MarkUsed(used, start, len) <==> start <= b < start + len || b in used
    decreases len
  {
    if len > 0 {
      MarkUsedHas(used, start, len - 1, b);
    }
  }

  lemma {:induction false} MarkFreeHas(used: set<nat>, start: nat, len: nat, b: nat)
    ensures b in MarkFree(used, start, len) <==> !(start <= b < start + len) && b in used
    decreases len
  {
    if len > 0 {
      MarkFreeHas(used, start, len - 1, b);
    }
  }

  /** Lowest block in `[b, limit)` that is used (or free), or `limit`. */
  function Scan(used: set<nat>, b: nat, limit: nat, want: bool): (r: nat)
    requires b <= limit
    ensures b <= r <= limit
    decreases limit - b
  {
    if b == limit || (b in used) == want then b else Scan(used, b + 1, limit, want)
  }

  lemma {:induction false} ScanFinds(used: set<nat>, b: nat, limit: nat, want: bool)
    requires b <= limit
    ensures var r := Scan(used, b, limit, want);
      (r < limit ==> (r in used) == want) && forall x | b <= x < r :: (x in used) != want
    decreases limit - b
  {
    if b < limit && (b in used) != want {
      ScanFinds(used, b + 1, limit, want);
    }
  }

  /** First-fit: a free run of the data region, cut to `max` blocks. */
  function AllocRun(used: set<nat>, g: Geometry, max: nat): (r: Option<(nat, nat)>)
    requires g.dataStart <= g.totalBlocks && max > 0
    ensures r.Some? ==> 1 <= r.value.1 <= max
  {
    var start := Scan(used, g.dataStart, g.totalBlocks, false);
    if start == g.totalBlocks then None
    else Some((start, Scan(used, start + 1, Min(start + max, g.totalBlocks), true) - start))
  }

  /** It is the lowest free run, as long as `max` allows, and it is missing only
      when every data block is taken. */
  lemma AllocRunIsFirstFit(used: set<nat>, g: Geometry, max: nat)
    requires g.dataStart <= g.totalBlocks && max > 0
    ensures var r := AllocRun(used, g, max);
      && (r.None? <==> forall b | g.dataStart <= b < g.totalBlocks :: b in used)
      && (r.Some? ==> var (start, len) := r.value;
            && g.dataStart <= start && start + len <= g.totalBlocks
            && (forall b | g.dataStart <= b < start :: b in used)
            && (forall b | start <= b < start + len :: b !in used)
            && (len == max || start + len == g.totalBlocks || start + len in used))
  {
    ScanFinds(used, g.dataStart, g.totalBlocks, false);
    var start := Scan(used, g.dataStart, g.totalBlocks, false);
    if start < g.totalBlocks {
      ScanFinds(used, start + 1, Min(start + max, g.totalBlocks), true);
    }
  }

  datatype Growth = Growth(ok: bool, used: set<nat>, extents: seq<Extent>)

  /** The extent list after a run is added: a run that continues the last
      extent widens it, any other becomes a new extent. */
  function NextExtents(ext: seq<Extent>, start: nat, len: nat): seq<Extent> {
    if ext != [] && ext[|ext| - 1].start + ext[|ext| - 1].len == start
    then ext[|ext| - 1 := Extent(ext[|ext| - 1].start, ext[|ext| - 1].len + len)]
    else ext + [Extent(start, len)]
  }

  /** Adds `remaining` blocks to a file, run by run. Stops without success when
      no block is free or a seventh extent would be needed. */
  function Grow(used: set<nat>, g: Geometry, ext: seq<Extent>, remaining: nat): Growth
    requires g.dataStart <= g.totalBlocks
    decreases remaining
  {
    if remaining == 0 then Growth(true, used, ext)
    else match AllocRun(used, g, remaining)
      case None => Growth(false, used, ext)
      case Some((start, len)) =>
        var ext1 := NextExtents(ext, start, len);
        if |ext1| > MAX_EXTENTS then Growth(false, used, ext)
        else Grow(MarkUsed(used, start, len), g, ext1, remaining - len)
  }

  function EnsureBlocks(used: set<nat>, g: Geometry, ext: seq<Extent>, needed: nat): Growth
    requires g.dataStart <= g.totalBlocks
  {
    if needed <= Allocated(ext) then Growth(true, used, ext) else Grow(used, g, ext, needed - Allocated(ext))
  }

  /** What growing a file guarantees: the old blocks keep their places, the
      added ones were free, distinct data blocks and are the only new ones. */
  ghost predicate Grown(g: Geometry, used: set<nat>, ext: seq<Extent>, r: Growth, added: seq<nat>) {
    match r
    case Growth(_, used', ext') =>
      && |ext'| <= MAX_EXTENTS
      && (forall k | 0 <= k < |ext'| :: ExtentOk(g, ext'[k]))
      && Blocks(ext') == Blocks(ext) + added
      && NoDup(added)
      && (forall b | b in added :: g.dataStart <= b < g.totalBlocks && b !in used)
      && (forall b :: b in used' <==> b in used || b in added)
  }

  lemma GrownRefl(g: Geometry, used: set<nat>, ext: seq<Extent>, ok: bool)
    requires |ext| <= MAX_EXTENTS && forall k | 0 <= k < |ext| :: ExtentOk(g, ext[k])
    ensures Grown(g, used, ext, Growth(ok, used, ext), [])
  {
  }

  lemma FirstRun(used: set<nat>, g: Geometry, ext: seq<Extent>, start: nat, len: nat)
    requires start + len <= g.totalBlocks && g.dataStart <= start && len > 0
    requires forall b | start <= b < start + len :: b !in used
    requires forall k | 0 <= k < |ext| :: ExtentOk(g, ext[k])
    requires |NextExtents(ext, start, len)| <= MAX_EXTENTS
    ensures Grown(g, used, ext, Growth(true, MarkUsed(used, start, len), NextExtents(ext, start, len)),
                  Range(start, len))
  {
    NextBlocks(ext, start, len);
    NextExtentsOk(g, ext, start, len);
    RangeNoDup(start, len, len);
    forall b: nat
      ensures b in MarkUsed(used, start, len) <==> b in used || b in Range(start, len)
    {
      MarkUsedHas(used, start, len, b);
      if start <= b < start + len {
        assert Range(start, len)[b - start] == b;
      }
    }
  }

  lemma NextBlocks(ext: seq<Extent>, start: nat, len: nat)
    ensures Blocks(NextExtents(ext, start, len)) == Blocks(ext) + Range(start, len)
  {
    if ext != [] && ext[|ext| - 1].start + ext[|ext| - 1].len == start {
      BlocksWiden(ext, len);
    } else {
      BlocksSnoc(ext, Extent(start, len));
    }
  }

  lemma NextExtentsOk(g: Geometry, ext: seq<Extent>, start: nat, len: nat)
    requires start + len <= g.totalBlocks && g.dataStart <= start && len > 0
    requires forall k | 0 <= k < |ext| :: ExtentOk(g, ext[k])
    ensures forall k | 0 <= k < |NextExtents(ext, start, len)| :: ExtentOk(g, NextExtents(ext, start, len)[k])
  {
    var ext1 := NextExtents(ext, start, len);
    forall k | 0 <= k < |ext1|
      ensures ExtentOk(g, ext1[k])
    {
      if k < |ext| {
        assert ExtentOk(g, ext[k]);
      }
    }
  }

  lemma GrownTrans(g: Geometry, used: set<nat>, ext: seq<Extent>, r1: Growth, a: seq<nat>, r2: Growth, b: seq<nat>)
    requires Grown(g, used, ext, r1, a) && Grown(g, r1.used, r1.extents, r2, b)
    ensures Grown(g, used, ext, r2, a + b)
  {
    assert Blocks(ext) + a + b == Blocks(ext) + (a + b);
    NoDupConcat(a, b, |b|);
  }

  /** One round of the loop, seen from the start of the call. */
  lemma OneMoreRun(g: Geometry, used0: set<nat>, ext0: seq<Extent>, r: Growth, added: seq<nat>, max: nat)
    requires g.dataStart <= g.totalBlocks && max > 0 && Grown(g, used0, ext0, r, added)
    requires AllocRun(r.used, g, max).Some?
    requires var (start, len) := AllocRun(r.used, g, max).value; |NextExtents(r.extents, start, len)| <= MAX_EXTENTS
    ensures var (start, len) := AllocRun(r.used, g, max).value;
      Grown(g, used0, ext0, Growth(true, MarkUsed(r.used, start, len), NextExtents(r.extents, start, len)),
            added + Range(start, len))
  {
    AllocRunIsFirstFit(r.used, g, max);
    var (start, len) := AllocRun(r.used, g, max).value;
    FirstRun(r.used, g, r.extents, start, len);
    GrownTrans(g, used0, ext0, r, added, Growth(true, MarkUsed(r.used, start, len), NextExtents(r.extents, start, len)),
               Range(start, len));
  }

  lemma GrownFailed(g: Geometry, used: set<nat>, ext: seq<Extent>, r: Growth, added: seq<nat>)
    requires Grown(g, used, ext, r, added)
    ensures Grown(g, used, ext, r.(ok := false), added)
  {
  }

  lemma {:induction false} GrowFrom(g: Geometry, used0: set<nat>, ext0: seq<Extent>, r: Growth, added0: seq<nat>,
                                    remaining: nat)
    returns (added: seq<nat>)
    requires g.dataStart <= g.totalBlocks && Grown(g, used0, ext0, r, added0) && r.ok
    ensures Grown(g, used0, ext0, Grow(r.used, g, r.extents, remaining), added)
    ensures Grow(r.used, g, r.extents, remaining).ok <==> |added| == |added0| + remaining
    ensures |added| <= |added0| + remaining
    decreases remaining
  {
    hide Grown, AllocRun, MarkUsed, NextExtents;
    var r' := Grow(r.used, g, r.extents, remaining);
    if remaining == 0 {
      added := added0;
      assert r' == r;
      return;
    }
    var run := AllocRun(r.used, g, remaining);
    if run.None? || |NextExtents(r.extents, run.value.0, run.value.1)| > MAX_EXTENTS {
      added := added0;
      assert r' == r.(ok := false);
      GrownFailed(g, used0, ext0, r, added0);
      return;
    }
    var (start, len) := run.value;
    var r1 := Growth(true, MarkUsed(r.used, start, len), NextExtents(r.extents, start, len));
    assert r' == Grow(r1.used, g, r1.extents, remaining - len);
    OneMoreRun(g, used0, ext0, r, added0, remaining);
    added := GrowFrom(g, used0, ext0, r1, added0 + Range(start, len), remaining - len);
  }

  /** `ensure_blocks` keeps every earlier logical-to-physical mapping and ends,
      exactly on success, with max(have, needed) blocks. */
  lemma EnsureCorrect(used: set<nat>, g: Geometry, ext: seq<Extent>, needed: nat) returns (added: seq<nat>)
    requires g.dataStart <= g.totalBlocks && |ext| <= MAX_EXTENTS
    requires forall k | 0 <= k < |ext| :: ExtentOk(g, ext[k])
    ensures var r := EnsureBlocks(used, g, ext, needed);
      && Grown(g, used, ext, r, added)
      && (r.ok <==> Allocated(r.extents) >= needed)
      && (r.ok ==> Allocated(r.extents) == if needed <= Allocated(ext) then Allocated(ext) else needed)
      && (forall l | 0 <= l < Allocated(ext) :: PhysicalBlock(r.extents, l) == PhysicalBlock(ext, l))
  {
    GrownRefl(g, used, ext, true);
    added := [];
    if needed > Allocated(ext) {
      added := GrowFrom(g, used, ext, Growth(true, used, ext), [], needed - Allocated(ext));
    }
    KeepsMapping(ext, EnsureBlocks(used, g, ext, needed).extents);
  }

  lemma KeepsMapping(ext: seq<Extent>, ext': seq<Extent>)
    requires Blocks(ext) <= Blocks(ext')
    ensures forall l | 0 <= l < Allocated(ext) :: PhysicalBlock(ext', l) == PhysicalBlock(ext, l)
  {
    forall l | 0 <= l < Allocated(ext)
      ensures PhysicalBlock(ext', l) == PhysicalBlock(ext, l)
    {
      PhysicalIsIndex(ext, l);
      PhysicalIsIndex(ext', l);
    }
  }

  /** The used blocks once the first `k` extents are given back. */
  function ReleaseIn(used: set<nat>, ext: seq<Extent>, k: nat): set<nat>
    requires k <= |ext|
  {
    if k == 0 then used else MarkFree(ReleaseIn(used, ext, k - 1), ext[k - 1].start, ext[k - 1].len)
  }

  function ReleaseExtents(used: set<nat>, ext: seq<Extent>): set<nat> { ReleaseIn(used, ext, |ext|) }

  lemma {:induction false} ReleaseHas(used: set<nat>, ext: seq<Extent>, k: nat, b: nat)
    requires k <= |ext|
    ensures b in ReleaseIn(used, ext, k) <==> b in used && b !in BlocksIn(ext, k)
  {
    if k > 0 {
      var e := ext[k - 1];
      ReleaseHas(used, ext, k - 1, b);
      MarkFreeHas(ReleaseIn(used, ext, k - 1), e.start, e.len, b);
      if e.start <= b < e.start + e.len {
        assert Range(e.start, e.len)[b - e.start] == b;
      }
    }
  }
}
