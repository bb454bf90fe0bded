/** Histories from `format`: any run of calls, each possibly cut by a crash at
    any block write and followed by a mount. */
module FsHistory {
  import opened Bytes
  import opened FsFormat
  import opened FsNode
  import opened FsAlloc
  import opened FsTree
  import opened FsOps
  import opened FsInv
  import opened FsStep
  import opened FsLoad
  import opened FsCrash
  import opened FsRuns
  import Bitmap
  import FsCheck

  // ---- format -------------------------------------------------------------------------

  /** Generation 1 in slot 0: the metadata region in use and no nodes. */
  function FormatMeta(g: Geometry): Meta {
    Meta(1, 0, MarkUsed({}, 0, g.dataStart), seq(MAX_NODES, i => None))
  }

  /** Zeroed metadata region, the image in slot 0, then both superblocks. */
  function FormatWrites(g: Geometry): seq<Write>
    requires GeomOk(g) && NodesOk(g, FormatMeta(g).nodes)
  {
    seq(g.dataStart, i requires 0 <= i < g.dataStart => Write(i, Zeros(BLOCK_SIZE)))
    + PublishWrites(g, 0, ImageOf(g, FormatMeta(g)), EncodeSuper(SuperOf(g, FormatMeta(g)), g))
  }

  lemma FormatMetaOk(g: Geometry)
    requires GeomOk(g)
    ensures Publishable(g, FormatMeta(g))
  {
    DeriveBounds(g);
    var m := FormatMeta(g);
    forall b: nat
      ensures b in m.used <==> b < g.dataStart
    {
      MarkUsedHas({}, 0, g.dataStart, b);
    }
    assert UsedFits(g, m.used);
    assert AllocOk(g, m.used, m.nodes);
    assert TreeOk(m.nodes);
  }

  lemma FormatSlot(g: Geometry)
    ensures FormatMeta(g).slot == 0
  {
  }

  /** Any disk, formatted, mounts as the empty file system of generation 1. */
  lemma FormatMounts(disk: Disk, g: Geometry)
    requires GeomOk(g) && |disk| == g.totalBlocks
    ensures Publishable(g, FormatMeta(g))
    ensures InStep(Apply(disk, FormatWrites(g)), MountOf(g, FormatMeta(g)), FormatMeta(g))
    ensures Load(Apply(disk, FormatWrites(g)), g) == Loaded(MountOf(g, FormatMeta(g)))
  {
    hide FormatMeta, NodesOk, TreeOk, AllocOk, UsedFits, DecodeSuper, EncodeSuper, ImageOf, ReadSlot, SlotWrites, Load,
      Apply, ApplyFirst, InStep;
    FormatMetaOk(g);
    var m := FormatMeta(g);
    assert m.slot == 0 by { FormatSlot(g); }
    var image := ImageOf(g, m);
    var super := EncodeSuper(SuperOf(g, m), g);
    SuperRoundTrip(SuperOf(g, m), g);
    var zeroes := seq(g.dataStart, i requires 0 <= i < g.dataStart => Write(i, Zeros(BLOCK_SIZE)));
    var blank := Apply(disk, zeroes);
    ApplyConcat(disk, zeroes, PublishWrites(g, 0, image, super));
    FormatStands(blank, g, SuperOf(g, m), image, super);
    LoadPublished(Apply(disk, FormatWrites(g)), g, m);
  }

  lemma FormatStands(disk: Disk, g: Geometry, sb: SuperBlock, image: seq<u8>, super: Block)
    requires GeomOk(g) && |disk| == g.totalBlocks && |image| == g.SlotBytes()
    requires sb.activeSlot == 0 && sb.slotCrc == Crc.Crc32(image) && DecodeSuper(super, g) == Some(sb)
    ensures Stands(Apply(disk, PublishWrites(g, 0, image, super)), g, sb, image)
  {
    hide DecodeSuper, ReadSlot, SlotWrites;
    PublishedBlocks(disk, g, 0, image, super, g.slotBlocks + 2);
    PublishPrefix(disk, g, 0, image, super, g.slotBlocks + 2);
  }

  // ---- histories ------------------------------------------------------------------------

  datatype Action =
    | Call(op: Op)             // the operation runs to its end
    | CrashIn(op: Op, k: nat)  // only its first k block writes reach the disk; then mount

  /** The disk, the mounted file system, and the metadata last committed. */
  datatype State = State(disk: Disk, mount: MountResult, saved: Meta)

  ghost predicate Sound(s: State) {
    s.mount.Loaded? && InStep(s.disk, s.mount.fs, s.saved)
  }

  ghost predicate CanTake(s: State, a: Action)
    requires Sound(s)
  {
    && Permitted(s.mount.fs, a.op)
    && s.mount.fs.generation + 1 < 0x1_0000_0000_0000_0000
    && (OpWrites(s.mount.fs, s.disk, a.op); a.CrashIn? ==> a.k <= |Exec(s.mount.fs, s.disk, a.op).writes|)
  }

  /** The metadata that counts as committed after an action. */
  ghost function Take(s: State, a: Action): (s': State)
    requires Sound(s) && CanTake(s, a)
    ensures Sound(s') && s'.mount.fs.geom == s.mount.fs.geom
  {
    var fs := s.mount.fs;
    OpWrites(fs, s.disk, a.op);
    var e := Exec(fs, s.disk, a.op);
    match a
    case Call(op) =>
      OpKeepsStep(s.disk, fs, s.saved, op);
      State(Apply(s.disk, e.writes), Loaded(e.fs), Survivor(fs, s.disk, op, s.saved, |e.writes|))
    case CrashIn(op, k) =>
      CrashAnywhere(s.disk, fs, s.saved, op, k);
      var cut := ApplyFirst(s.disk, e.writes, k);
      State(cut, Load(cut, fs.geom), Survivor(fs, s.disk, op, s.saved, k))
  }

  ghost predicate CanRun(s: State, acts: seq<Action>)
    requires Sound(s)
    decreases |acts|
  {
    hide InStep, CanTake, Take;
    acts == [] || (CanTake(s, acts[0]) && CanRun(Take(s, acts[0]), acts[1..]))
  }

  ghost function After(s: State, acts: seq<Action>): (s': State)
    requires Sound(s) && CanRun(s, acts)
    ensures Sound(s') && s'.mount.fs.geom == s.mount.fs.geom
    decreases |acts|
  {
    hide InStep, CanTake, Take;
    if acts == [] then s else After(Take(s, acts[0]), acts[1..])
  }

  /** A partition right after `format` and its first mount. */
  ghost function Formatted(disk: Disk, g: Geometry): (s: State)
    requires GeomOk(g) && |disk| == g.totalBlocks
    ensures Sound(s) && s.mount.fs.geom == g
  {
    FormatMounts(disk, g);
    var d := Apply(disk, FormatWrites(g));
    State(d, Load(d, g), FormatMeta(g))
  }

  /** In every history the file system stays mounted read/write, its nodes form
      a tree, every used data block is owned by exactly one place of one node,
      and a remount gives exactly the metadata last committed. */
  lemma EveryHistory(disk: Disk, g: Geometry, acts: seq<Action>)
    requires GeomOk(g) && |disk| == g.totalBlocks && CanRun(Formatted(disk, g), acts)
    ensures var s := After(Formatted(disk, g), acts);
      && s.mount.Loaded? && !s.mount.fs.readOnly
      && NodesOk(g, s.mount.fs.nodes) && TreeOk(s.mount.fs.nodes)
      && Exact(g, s.mount.fs.used, s.mount.fs.nodes) && Disjoint(s.mount.fs.nodes)
      && Load(s.disk, g) == Loaded(MountOf(g, s.saved))
  {
    hide NodesOk, TreeOk, Exact, Disjoint, Load, Formatted, After, CanRun, Stands, ImageOf, HandlesOk;
    var s := After(Formatted(disk, g), acts);
    LoadPublished(s.disk, g, s.saved);
  }

  /** At every point of every history, cutting the next operation after any
      number of block writes mounts either exactly what was last committed or,
      once the primary superblock is out, exactly what is being committed. */
  lemma EveryCrash(disk: Disk, g: Geometry, acts: seq<Action>, op: Op, k: nat)
    requires GeomOk(g) && |disk| == g.totalBlocks && CanRun(Formatted(disk, g), acts)
    requires CanTake(After(Formatted(disk, g), acts), CrashIn(op, k))
    ensures var s := After(Formatted(disk, g), acts);
      var fs := s.mount.fs;
      && Mounted(fs, s.disk) && CanFinish(s.disk, Mutate(fs, s.disk, op)) && k <= |Exec(fs, s.disk, op).writes|
      && var m := Mutate(fs, s.disk, op);
         var mounted := Load(ApplyFirst(s.disk, Exec(fs, s.disk, op).writes, k), g);
         if Commits(m) && k >= |Exec(fs, s.disk, op).writes| - 1 then
           mounted == Loaded(MountOf(g, Meta(fs.generation + 1, 1 - fs.activeSlot, m.fs.used, m.fs.nodes)))
         else
           mounted == Loaded(MountOf(g, s.saved))
  {
    hide FsOk, Load, Formatted, After, CanRun, Stands, Publishable, Mutate, Mounted, CanFinish, Expand, ApplyFirst,
      Permitted, CommitWrites, SuperOf, ImageOf, DataFits;
    var s := After(Formatted(disk, g), acts);
    OpWrites(s.mount.fs, s.disk, op);
    CrashAnywhere(s.disk, s.mount.fs, s.saved, op, k);
  }

  // ---- the checker on a history ---------------------------------------------------------------

  lemma {:induction false} ClaimedHas(nodes: Nodes, n: nat, b: nat)
    requires n <= MAX_NODES && b in FsCheck.Claimed(nodes, n)
    ensures Owned(nodes, b)
    decreases n
  {
    if b !in FsCheck.Claimed(nodes, n - 1) {
      var ext := nodes[n - 1].value.extents;
      ClaimedBy(FsCheck.Claimed(nodes, n - 1), ext, |ext|, b);
      assert b in BlocksOf(nodes, n - 1);
    } else {
      ClaimedHas(nodes, n - 1, b);
    }
  }

  lemma {:induction false} ClaimedBy(used: set<nat>, ext: seq<Extent>, k: nat, b: nat)
    requires k <= |ext| && b in FsCheck.MarkExtents(used, ext, k) && b !in used
    ensures b in Blocks(ext)
    decreases k
  {
    MarkUsedHas(FsCheck.MarkExtents(used, ext, k - 1), ext[k - 1].start, ext[k - 1].len, b);
    if b in FsCheck.MarkExtents(used, ext, k - 1) {
      ClaimedBy(used, ext, k - 1, b);
    } else {
      assert InExtent(ext[k - 1], b);
      InBlocks(ext, |ext|, b);
    }
  }

  lemma {:induction false} AllMarked(claimed: set<nat>, used: set<nat>, lo: nat, hi: nat)
    requires lo <= hi && forall b | lo <= b < hi && b in claimed :: b in used
    ensures FsCheck.Unmarked(claimed, used, lo, hi) == 0
    decreases hi - lo
  {
    if lo < hi {
      AllMarked(claimed, used, lo, hi - 1);
    }
  }

  /** Published metadata scans clean, with no claimed block left unmarked. */
  lemma PublishedScansClean(g: Geometry, m: Meta)
    requires Publishable(g, m)
    ensures ImageOk(g, ImageOf(g, m))
    ensures var scan := FsCheck.Scan(ImageOf(g, m), g); scan.IsClean() && scan.bitmapErrors == 0
  {
    hide TreeOk, NodesOk, UsedFits, Disjoint, ImageOf, FromSlot, FsCheck.Claimed, Owned;
    SlotRoundTrip(g, m);
    ImageDecodes(g, m);
    var image := ImageOf(g, m);
    FsCheck.CleanIffStrict(image, g, SuperOf(g, m));
    assert Bitmap.Unpack(image[..g.BitmapLen()]) == m.used by { ImageBitmap(g, m); }
    forall b | g.dataStart <= b < g.totalBlocks && b in FsCheck.Claimed(m.nodes, MAX_NODES)
      ensures b in m.used
    {
      ClaimedHas(m.nodes, MAX_NODES, b);
    }
    AllMarked(FsCheck.Claimed(m.nodes, MAX_NODES), m.used, g.dataStart, g.totalBlocks);
  }
}
