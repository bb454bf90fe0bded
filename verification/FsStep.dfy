/** One operation on a healthy mount: it keeps the invariant, writes only data
    blocks before its commit, and never touches the generation by itself. */
module FsStep {
  import opened Bytes
  import opened FsFormat
  import opened FsNode
  import opened FsAlloc
  import opened FsSpace
  import opened FsTree
  import opened FsOps
  import opened FsInv
  import Utf8

  /** Whether the kept prefix can be rewritten: the six lowest free runs, the
      file's own blocks counted as free, hold its blocks. */
  predicate ShrinkFits(fs: Fs, i: nat, target: nat)
    requires i < MAX_NODES && fs.nodes[i].Some? && fs.geom.dataStart <= fs.geom.totalBlocks
  {
    CeilDiv(target, BLOCK_SIZE) <=
      FreeRuns(ReleaseExtents(fs.used, fs.nodes[i].value.extents), fs.geom.dataStart, fs.geom.totalBlocks, MAX_EXTENTS)
  }

  /** The blocks a file could have: its own and the room left for it. */
  function Reach(fs: Fs, i: nat): nat
    requires CanWrite(fs, i)
  {
    Allocated(fs.nodes[i].value.extents) + Room(fs.used, fs.geom, fs.nodes[i].value.extents)
  }

  /** A write succeeds if and only if its end is within reach (and is a 64-bit
      number, on a volume that is not read-only). It never changes the reach. A
      write that fails for space has taken all of it, leaves the dirty flag
      alone, and leaves the volume as it was if and only if there was nothing
      to take: no data block free, or six extents and the lowest free block not
      next to the last. */
  lemma WriteIff(fs: Fs, i: nat, offset: nat, input: seq<u8>, now: u64)
    requires CanWrite(fs, i)
    ensures var m := WriteNode(fs, i, offset, input, now);
      var end, ext := offset + |input|, fs.nodes[i].value.extents;
      var tried := !fs.readOnly && end < 0x1_0000_0000_0000_0000;
      && CanWrite(m.fs, i) && Reach(m.fs, i) == Reach(fs, i)
      && (m.result.Ok? <==> tried && CeilDiv(end, BLOCK_SIZE) <= Reach(fs, i))
      && (m.result.Err? ==> m.fs.dirty == fs.dirty)
      && (m.result.Err? && tried ==>
            && Allocated(m.fs.nodes[i].value.extents) == Reach(fs, i)
            && (m.fs == fs <==>
                  || (forall b | fs.geom.dataStart <= b < fs.geom.totalBlocks :: b in fs.used)
                  || (|ext| == MAX_EXTENTS && !Continues(fs.used, fs.geom, ext))))
  {
    hide EnsureBlocks, Room, Allocated, Continues, ExtentOk;
    WriteKeepsCanWrite(fs, i, offset, input, now);
    DeriveBounds(fs.geom);
    var ext, needed := fs.nodes[i].value.extents, CeilDiv(offset + |input|, BLOCK_SIZE);
    EnsureIff(fs.used, fs.geom, ext, needed);
    if !EnsureBlocks(fs.used, fs.geom, ext, needed).ok {
      FailedGrowthIff(fs.used, fs.geom, ext, needed);
    }
  }

  /** How an extension from `size` by `remaining` ends, given the blocks within
      reach: complete exactly if the new end is; otherwise it stops where the
      next round is not. */
  predicate ExtensionEnds(size: nat, remaining: nat, reach: nat, ok: bool, size': nat) {
    && (ok <==> CeilDiv(size + remaining, BLOCK_SIZE) <= reach)
    && size <= size' <= size + remaining && (ok ==> size' == size + remaining)
    && (!ok ==>
          && (size' - size) % BLOCK_SIZE == 0 && CeilDiv(size', BLOCK_SIZE) <= reach
          && reach < CeilDiv(size' + Min(size + remaining - size', BLOCK_SIZE), BLOCK_SIZE))
  }

  lemma RoundStops(size: nat, remaining: nat, reach: nat)
    requires remaining > 0
    requires CeilDiv(size, BLOCK_SIZE) <= reach < CeilDiv(size + Min(remaining, BLOCK_SIZE), BLOCK_SIZE)
    ensures ExtensionEnds(size, remaining, reach, false, size)
  {
    CeilMono(size + Min(remaining, BLOCK_SIZE), size + remaining);
  }

  lemma RoundPasses(size: nat, remaining: nat, reach: nat, ok: bool, size': nat)
    requires remaining > 0
    requires var chunk := Min(remaining, BLOCK_SIZE); ExtensionEnds(size + chunk, remaining - chunk, reach, ok, size')
    requires remaining <= BLOCK_SIZE ==> ok
    ensures ExtensionEnds(size, remaining, reach, ok, size')
  {
    hide CeilDiv;
  }

  /** Extending with zeros succeeds if and only if the new end is within reach;
      otherwise it stops exactly where the next round is not, keeping the zeros
      of every round before. */
  lemma {:induction false} ExtendIff(fs: Fs, i: nat, remaining: nat, now: u64)
    requires CanWrite(fs, i) && !fs.readOnly
    requires var size := fs.nodes[i].value.size;
      size + remaining < 0x1_0000_0000_0000_0000 && CeilDiv(size, BLOCK_SIZE) <= Reach(fs, i)
    ensures var size := fs.nodes[i].value.size;
      var m := ZeroExtend(fs, i, size, remaining, now);
      && m.fs.nodes[i].Some?
      && ExtensionEnds(size, remaining, Reach(fs, i), m.result.Ok?, m.fs.nodes[i].value.size)
    decreases remaining
  {
    hide Reach, WriteNode, ExtentOk, UsedFits, GeomOk, CeilDiv;
    if remaining == 0 {
      hide ZeroExtend;
      ExtendNone(fs, i, now);
    } else {
      var size, chunk := fs.nodes[i].value.size, Min(remaining, BLOCK_SIZE);
      var m := WriteNode(fs, i, size, Zeros(chunk), now);
      WriteIff(fs, i, size, Zeros(chunk), now);
      WriteSize(fs, i, size, Zeros(chunk), now);
      if m.result.Ok? {
        hide ExtensionEnds;
        ExtendIff(m.fs, i, remaining - chunk, now);
        var rest := ZeroExtend(m.fs, i, size + chunk, remaining - chunk, now);
        if remaining <= BLOCK_SIZE {
          ExtendNone(m.fs, i, now);
        }
        RoundPasses(size, remaining, Reach(fs, i), rest.result.Ok?, rest.fs.nodes[i].value.size);
      } else {
        RoundStops(size, remaining, Reach(fs, i));
      }
    }
  }

  lemma ExtendNone(fs: Fs, i: nat, now: u64)
    requires CanWrite(fs, i)
    ensures ZeroExtend(fs, i, fs.nodes[i].value.size, 0, now) == Mutation(fs, [], DONE, false)
  {
  }

  lemma CeilMono(a: nat, b: nat)
    requires a <= b
    ensures CeilDiv(a, BLOCK_SIZE) <= CeilDiv(b, BLOCK_SIZE)
  {
  }

  lemma WriteSize(fs: Fs, i: nat, offset: nat, input: seq<u8>, now: u64)
    requires CanWrite(fs, i)
    ensures var m := WriteNode(fs, i, offset, input, now);
      && m.fs.nodes[i].Some? && m.fs.readOnly == fs.readOnly
      && m.fs.nodes[i].value.size ==
           if m.result.Ok? then Max(fs.nodes[i].value.size, offset + |input|) else fs.nodes[i].value.size
  {
    hide EnsureBlocks;
  }

  lemma ReleasedOk(fs: Fs, i: nat)
    requires FsOk(fs) && i < MAX_NODES && fs.nodes[i].Some? && fs.nodes[i].value.fileType == File
    ensures OkButSize(Release(fs, i), i) && CanWrite(Release(fs, i), i)
  {
    var n := fs.nodes[i].value.(extents := []);
    SamePathsTree(fs.nodes, i, n);
    ReleaseFits(fs.geom, fs.used, fs.nodes[i].value.extents);
    ReleaseKeepsAlloc(fs.geom, fs.used, fs.nodes, i, Some(n));
    var zeroed := fs.nodes[i := Some(n)][i := Some(n.(size := 0))];
    assert NodeOk(fs.geom, fs.nodes[i].value);
    assert NodesOk(fs.geom, zeroed);
  }

  lemma CeilFloor(blocks: nat, target: nat)
    ensures blocks < CeilDiv(target, BLOCK_SIZE) ==> blocks * BLOCK_SIZE < target
    ensures blocks >= CeilDiv(target, BLOCK_SIZE) ==> blocks * BLOCK_SIZE >= target
  {
  }

  /** A shrink leaves strictly loadable metadata exactly when the rewrite of the
      kept prefix finds room; otherwise the old size outlives its blocks. */
  lemma ShrinkIff(fs: Fs, i: nat, keep: seq<u8>, now: u64)
    requires FsOk(fs) && i < MAX_NODES && fs.nodes[i].Some? && fs.nodes[i].value.fileType == File
    requires |keep| < fs.nodes[i].value.size
    ensures CanWrite(fs, i)
    ensures FsOk(Shrink(fs, i, keep, now).fs) <==> ShrinkFits(fs, i, |keep|)
    ensures Shrink(fs, i, keep, now).result.Ok? <==> ShrinkFits(fs, i, |keep|)
  {
    var n := fs.nodes[i].value;
    assert NodeOk(fs.geom, n);
    OkIsOkButSize(fs, i);
    ReleasedOk(fs, i);
    var freed := Release(fs, i);
    if keep == [] {
      SizeSetOk(freed, i, 0, now);
    } else {
      RewriteOutcome(freed, i, keep, now);
      EnsureIff(freed.used, fs.geom, [], CeilDiv(|keep|, BLOCK_SIZE));
      var m := WriteNode(freed, i, 0, keep, now);
      WriteNodeOk(freed, i, 0, keep, now);
      if m.result.Ok? {
        SizeSetOk(m.fs, i, |keep|, now);
      } else {
        assert m.fs.nodes[i].value.size == n.size;
        assert !NodeOk(fs.geom, m.fs.nodes[i].value);
      }
    }
  }

  lemma RewriteOutcome(fs: Fs, i: nat, keep: seq<u8>, now: u64)
    requires CanWrite(fs, i) && !fs.readOnly && 0 < |keep| < 0x1_0000_0000_0000_0000
    ensures var r := EnsureBlocks(fs.used, fs.geom, fs.nodes[i].value.extents, CeilDiv(|keep|, BLOCK_SIZE));
      var m := WriteNode(fs, i, 0, keep, now);
      && (m.result.Ok? <==> r.ok)
      && (m.result.Err? ==> Allocated(m.fs.nodes[i].value.extents) * BLOCK_SIZE < |keep|)
  {
    DeriveBounds(fs.geom);
    EnsureIff(fs.used, fs.geom, fs.nodes[i].value.extents, CeilDiv(|keep|, BLOCK_SIZE));
    var r := EnsureBlocks(fs.used, fs.geom, fs.nodes[i].value.extents, CeilDiv(|keep|, BLOCK_SIZE));
    CeilFloor(Allocated(r.extents), |keep|);
  }

  /** Free blocks that alternate with taken ones from the start of the data
      region. */
  ghost predicate Holes(used: set<nat>, g: Geometry) {
    forall b | g.dataStart <= b < g.dataStart + 14 :: b in used <==> (b - g.dataStart) % 2 == 1
  }

  lemma HoleAt(used: set<nat>, g: Geometry, j: nat)
    requires Holes(used, g) && j < 7
    ensures g.dataStart + 2 * j !in used && g.dataStart + 2 * j + 1 in used
  {
  }

  /** With seven holes in front, six runs hold six blocks, however much space
      lies beyond. */
  lemma SevenHolesFail(used: set<nat>, g: Geometry, needed: nat)
    requires g.dataStart + 14 <= g.totalBlocks && needed >= 7 && Holes(used, g)
    ensures FreeRuns(used, g.dataStart, g.totalBlocks, MAX_EXTENTS) == 6
    ensures !EnsureBlocks(used, g, [], needed).ok
  {
    HoleRuns(used, g, 0, MAX_EXTENTS);
    EnsureIff(used, g, [], needed);
  }

  lemma {:induction false} HoleRuns(used: set<nat>, g: Geometry, j: nat, n: nat)
    requires g.dataStart + 14 <= g.totalBlocks && j + n <= 6 && Holes(used, g)
    ensures FreeRuns(used, g.dataStart + 2 * j, g.totalBlocks, n) == n
    decreases n
  {
    hide Holes;
    if n > 0 {
      var s := g.dataStart + 2 * j;
      HoleAt(used, g, j);
      ScanIs(used, s, g.totalBlocks, false, s);
      ScanIs(used, s, g.totalBlocks, true, s + 1);
      RunsSkip(used, s + 1, s + 2, g.totalBlocks, n - 1);
      HoleRuns(used, g, j + 1, n - 1);
    }
  }

  // ---- what a permitted operation does --------------------------------------------

  /** Calls outside the two limits of the code: renaming a directory into its
      own subtree, and a shrink whose rewrite finds no room. Paths are strings,
      hence well-formed UTF-8. */
  ghost predicate Permitted(fs: Fs, op: Op)
    requires HandlesOk(fs) && fs.geom.dataStart <= fs.geom.totalBlocks
  {
    match op
    case Create(path, _, _) => Utf8.Valid(path)
    case Rename(src, dst, _) => Utf8.Valid(src) && Utf8.Valid(dst) && !Under(Clean(dst), Clean(src))
    case Ftruncate(handle, target, _) =>
      var k := FindHandle(fs.handles, handle, 0);
      k.Some? && fs.handles[k.value].flags.write && target < fs.nodes[fs.handles[k.value].node].value.size ==>
        ShrinkFits(fs, fs.handles[k.value].node, target)
    case _ => true
  }

  /** File data that stays inside the data region. */
  ghost predicate DataFits(g: Geometry, data: seq<FileWrite>) {
    forall j | 0 <= j < |data| ::
      && (forall k | 0 <= k < |data[j].extents| :: ExtentOk(g, data[j].extents[k]))
      && data[j].offset + |data[j].data| <= Allocated(data[j].extents) * BLOCK_SIZE
  }

  /** A change that stays away from the published generation. */
  ghost predicate DataStep(fs: Fs, m: Mutation) {
    match m
    case Mutation(fs', data, _, _) =>
      && fs'.geom == fs.geom && fs'.generation == fs.generation && fs'.activeSlot == fs.activeSlot
      && fs'.readOnly == fs.readOnly
      && DataFits(fs.geom, data)
  }

  lemma WriteNodeData(fs: Fs, i: nat, offset: nat, input: seq<u8>, now: u64)
    requires CanWrite(fs, i)
    ensures DataStep(fs, WriteNode(fs, i, offset, input, now))
  {
    if !fs.readOnly && offset + |input| < 0x1_0000_0000_0000_0000 {
      EnsuredFits(fs, i, CeilDiv(offset + |input|, BLOCK_SIZE));
    }
  }

  /** What holds of a (possibly partial) zero extension. */
  ghost predicate ExtendOk(fs: Fs, m: Mutation) {
    match m case Mutation(fs', _, _, publish) => FsOk(fs') && DataStep(fs, m) && !publish
  }

  lemma ExtendJoin(fs: Fs, m: Mutation, rest: Mutation)
    requires ExtendOk(fs, m) && ExtendOk(m.fs, rest)
    ensures ExtendOk(fs, Mutation(rest.fs, m.data + rest.data, rest.result, false))
  {
  }

  lemma ExtendOnce(fs: Fs, i: nat, offset: nat, input: seq<u8>, now: u64)
    requires FsOk(fs) && CanWrite(fs, i) && fs.nodes[i].value.fileType == File
    ensures var m := WriteNode(fs, i, offset, input, now);
      ExtendOk(fs, m) && CanWrite(m.fs, i) && m.fs.nodes[i].value.fileType == File
  {
    hide FsOk, DataStep;
    WriteKeepsOk(fs, i, offset, input, now);
    WriteNodeData(fs, i, offset, input, now);
    WriteKeepsCanWrite(fs, i, offset, input, now);
  }

  lemma {:induction false} ZeroExtendOk(fs: Fs, i: nat, offset: nat, remaining: nat, now: u64)
    requires FsOk(fs) && CanWrite(fs, i) && fs.nodes[i].value.fileType == File
    ensures ExtendOk(fs, ZeroExtend(fs, i, offset, remaining, now))
    decreases remaining
  {
    hide FsOk, CanWrite, WriteNode;
    if remaining > 0 {
      var chunk := Min(remaining, BLOCK_SIZE);
      var m := WriteNode(fs, i, offset, Zeros(chunk), now);
      ExtendOnce(fs, i, offset, Zeros(chunk), now);
      if m.result.Ok? {
        ZeroExtendOk(m.fs, i, offset + chunk, remaining - chunk, now);
        ExtendJoin(fs, m, ZeroExtend(m.fs, i, offset + chunk, remaining - chunk, now));
      }
    }
  }

  // ---- every operation ---------------------------------------------------------------

  ghost predicate StepOk(fs: Fs, m: Mutation) {
    match m case Mutation(fs', _, _, _) => FsOk(fs') && DataStep(fs, m)
  }

  lemma ReadableNode(fs: Fs, disk: Disk, i: nat)
    requires FsOk(fs) && |disk| == fs.geom.totalBlocks && i < MAX_NODES && fs.nodes[i].Some?
    ensures Readable(disk, fs.nodes[i].value)
  {
    assert NodeOk(fs.geom, fs.nodes[i].value);
    NodeReadable(fs.geom, disk, fs.nodes[i].value);
  }

  lemma OkIsMounted(fs: Fs, disk: Disk)
    requires FsOk(fs) && |disk| == fs.geom.totalBlocks
    ensures Mounted(fs, disk)
  {
  }

  /** Changing only open handles keeps the invariant. */
  lemma HandlesOnly(fs: Fs, hs: seq<Handle>, next: nat)
    requires FsOk(fs) && HandlesOk(fs.(handles := hs))
    ensures FsOk(fs.(handles := hs)) && FsOk(fs.(handles := hs, nextHandle := next))
  {
  }

  lemma OpenOk(fs: Fs, path: Path, flags: Flags)
    requires FsOk(fs)
    ensures StepOk(fs, DoOpen(fs, path, flags))
  {
    var m := DoOpen(fs, path, flags);
    if m.result.Ok? {
      HandlesOnly(fs, m.fs.handles, m.fs.nextHandle);
    }
  }

  lemma ReadOk(fs: Fs, disk: Disk, handle: nat, len: nat)
    requires FsOk(fs) && Mounted(fs, disk)
    ensures StepOk(fs, DoRead(fs, disk, handle, len)) && DoRead(fs, disk, handle, len).data == []
  {
    var m := DoRead(fs, disk, handle, len);
    if m.result.Ok? {
      HandlesOnly(fs, m.fs.handles, fs.nextHandle);
    }
  }

  lemma SeekOk(fs: Fs, handle: nat, offset: int, whence: nat)
    requires FsOk(fs)
    ensures StepOk(fs, DoSeek(fs, handle, offset, whence))
  {
    var m := DoSeek(fs, handle, offset, whence);
    if m.result.Ok? {
      HandlesOnly(fs, m.fs.handles, fs.nextHandle);
    }
  }

  lemma SyncOk(fs: Fs, handle: nat, close: bool)
    requires FsOk(fs)
    ensures StepOk(fs, DoSync(fs, handle, close))
  {
    var m := DoSync(fs, handle, close);
    if m.result.Ok? {
      forall k | 0 <= k < |m.fs.handles|
        ensures m.fs.handles[k] in fs.handles
      {
      }
      HandlesOnly(fs, m.fs.handles, fs.nextHandle);
    }
  }

  lemma WriteOk(fs: Fs, handle: nat, input: seq<u8>, now: u64)
    requires FsOk(fs)
    ensures forall i | 0 <= i < MAX_NODES && fs.nodes[i].Some? :: CanWrite(fs, i)
    ensures StepOk(fs, DoWrite(fs, handle, input, now))
  {
    forall i | 0 <= i < MAX_NODES && fs.nodes[i].Some?
      ensures CanWrite(fs, i)
    {
      assert NodeOk(fs.geom, fs.nodes[i].value);
    }
    var k := FindHandle(fs.handles, handle, 0);
    if k.Some? && fs.handles[k.value].flags.write {
      var h := fs.handles[k.value];
      var w := WriteNode(fs, h.node, WriteOffset(fs, h), input, now);
      ExtendOnce(fs, h.node, WriteOffset(fs, h), input, now);
      var m := DoWrite(fs, handle, input, now);
      if w.result.Ok? {
        forall j | 0 <= j < |m.fs.handles|
          ensures m.fs.handles[j].node == fs.handles[j].node
        {
        }
        HandlesStay(fs, w.fs, h.node);
        HandlesOnly(w.fs, m.fs.handles, w.fs.nextHandle);
      }
    }
  }

  /** Handles survive a change of one file node. */
  lemma HandlesStay(fs: Fs, fs': Fs, i: nat)
    requires HandlesOk(fs) && i < MAX_NODES && fs'.nodes[i].Some? && fs'.nodes[i].value.fileType == File
    requires forall j | 0 <= j < MAX_NODES && j != i :: fs'.nodes[j] == fs.nodes[j]
    ensures HandlesOk(fs'.(handles := fs.handles))
  {
  }

  lemma ResizeOk(fs: Fs, disk: Disk, i: nat, target: u64, now: u64)
    requires FsOk(fs) && CanWrite(fs, i) && fs.nodes[i].value.fileType == File && Readable(disk, fs.nodes[i].value)
    requires target < fs.nodes[i].value.size ==> ShrinkFits(fs, i, target)
    ensures StepOk(fs, Resize(fs, disk, i, target, now))
  {
    hide FsOk, WriteNode, ZeroExtend, Shrink, ShrinkFits;
    var cur := fs.nodes[i].value.size;
    if target < cur {
      var keep := ReadBytes(disk, fs.nodes[i].value, 0, target);
      assert |keep| == target;
      ShrinkOk(fs, i, keep, now);
    } else if target > cur {
      ZeroExtendOk(fs, i, cur, target - cur, now);
      DirtyOk(ZeroExtend(fs, i, cur, target - cur, now).fs);
    }
  }

  lemma FtruncateOk(fs: Fs, disk: Disk, handle: nat, target: u64, now: u64)
    requires FsOk(fs) && Mounted(fs, disk) && Permitted(fs, Ftruncate(handle, target, now))
    ensures StepOk(fs, DoFtruncate(fs, disk, handle, target, now))
  {
    var k := FindHandle(fs.handles, handle, 0);
    if k.Some? && fs.handles[k.value].flags.write {
      var i := fs.handles[k.value].node;
      OkIsOkButSize(fs, i);
      ReadableNode(fs, disk, i);
      ResizeOk(fs, disk, i, target, now);
    }
  }

  lemma ShrinkOk(fs: Fs, i: nat, keep: seq<u8>, now: u64)
    requires FsOk(fs) && i < MAX_NODES && fs.nodes[i].Some? && fs.nodes[i].value.fileType == File
    requires |keep| < fs.nodes[i].value.size && ShrinkFits(fs, i, |keep|)
    ensures CanWrite(fs, i) && StepOk(fs, Shrink(fs, i, keep, now))
  {
    ShrinkIff(fs, i, keep, now);
    ShrinkData(fs, i, keep, now);
  }

  lemma DirtyOk(fs: Fs)
    requires FsOk(fs)
    ensures FsOk(fs.(dirty := true))
  {
  }

  lemma ShrinkData(fs: Fs, i: nat, keep: seq<u8>, now: u64)
    requires FsOk(fs) && CanWrite(fs, i) && fs.nodes[i].value.fileType == File
    ensures DataStep(fs, Shrink(fs, i, keep, now))
  {
    ReleasedOk(fs, i);
    if keep != [] {
      WriteNodeData(Release(fs, i), i, 0, keep, now);
    }
  }

  /** Operations that only change the node table leave the data alone. */
  lemma TableStep(fs: Fs, m: Mutation)
    requires FsOk(m.fs) && m.data == []
    requires m.fs.geom == fs.geom && m.fs.generation == fs.generation && m.fs.activeSlot == fs.activeSlot
    requires m.fs.readOnly == fs.readOnly
    ensures StepOk(fs, m)
  {
  }

  lemma CreateStep(fs: Fs, path: Path, directory: bool, now: u64)
    requires FsOk(fs) && Utf8.Valid(path)
    ensures StepOk(fs, DoCreate(fs, path, directory, now))
  {
    CreateOk(fs, path, directory, now);
    TableStep(fs, DoCreate(fs, path, directory, now));
  }

  lemma RemoveStep(fs: Fs, path: Path)
    requires FsOk(fs)
    ensures StepOk(fs, DoRemove(fs, path))
  {
    RemoveOk(fs, path);
    TableStep(fs, DoRemove(fs, path));
  }

  lemma RenameStep(fs: Fs, src: Path, dst: Path, now: u64)
    requires FsOk(fs) && Utf8.Valid(src) && Utf8.Valid(dst) && !Under(Clean(dst), Clean(src))
    ensures StepOk(fs, DoRename(fs, src, dst, now))
  {
    hide FsOk, StepOk;
    RenameOk(fs, src, dst, now);
    TableStep(fs, DoRename(fs, src, dst, now));
  }

  lemma TruncateStep(fs: Fs, path: Path, now: u64)
    requires FsOk(fs)
    ensures StepOk(fs, DoTruncate(fs, path, now))
  {
    TruncateOk(fs, path, now);
    TableStep(fs, DoTruncate(fs, path, now));
  }

  lemma TreeOpsOk(fs: Fs, disk: Disk, op: Op)
    requires FsOk(fs) && Mounted(fs, disk) && Permitted(fs, op)
    requires op.Create? || op.Remove? || op.Rename? || op.Truncate?
    ensures StepOk(fs, Mutate(fs, disk, op))
  {
    hide FsOk, StepOk, Mounted, DoCreate, DoRemove, DoRename, DoTruncate;
    match op {
      case Create(path, directory, now) => CreateStep(fs, path, directory, now);
      case Remove(path) => RemoveStep(fs, path);
      case Rename(src, dst, now) => RenameStep(fs, src, dst, now);
      case Truncate(path, now) => TruncateStep(fs, path, now);
    }
  }

  /** Every permitted operation keeps the invariant and touches neither the
      published generation nor, before its commit, any metadata block. */
  lemma MutateOk(fs: Fs, disk: Disk, op: Op)
    requires FsOk(fs) && |disk| == fs.geom.totalBlocks && Permitted(fs, op)
    ensures Mounted(fs, disk) && StepOk(fs, Mutate(fs, disk, op))
  {
    hide FsOk, StepOk, Mounted, Permitted, Mutate;
    OkIsMounted(fs, disk);
    if op.Create? || op.Remove? || op.Rename? || op.Truncate? {
      TreeOpsOk(fs, disk, op);
    } else {
      HandleOpsOk(fs, disk, op);
    }
  }

  lemma HandleOpsOk(fs: Fs, disk: Disk, op: Op)
    requires FsOk(fs) && Mounted(fs, disk) && Permitted(fs, op)
    requires !(op.Create? || op.Remove? || op.Rename? || op.Truncate?)
    ensures StepOk(fs, Mutate(fs, disk, op))
  {
    hide FsOk, StepOk, Mounted, DoOpen, DoRead, DoWrite, DoSeek, DoSync, DoFtruncate;
    match op {
      case OpenNode(path, flags) => OpenOk(fs, path, flags);
      case Read(handle, len) => ReadOk(fs, disk, handle, len);
      case WriteTo(handle, data, now) => WriteOk(fs, handle, data, now);
      case Seek(handle, offset, whence) => SeekOk(fs, handle, offset, whence);
      case Fsync(handle) => SyncOk(fs, handle, false);
      case Close(handle) => SyncOk(fs, handle, true);
      case Ftruncate(handle, target, now) => FtruncateOk(fs, disk, handle, target, now);
    }
  }
}
