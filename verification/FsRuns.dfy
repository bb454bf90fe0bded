/** Whole runs from `format`: operations, crashes at any block write, mounts. */
module FsRuns {
  import opened Bytes
  import opened FsFormat
  import opened FsNode
  import opened FsAlloc
  import opened FsTree
  import opened FsOps
  import opened FsInv
  import opened FsData
  import opened FsStep
  import opened FsLoad
  import opened FsCrash
  import Bitmap
  import Crc

  /** Metadata as a superblock publishes it. */
  datatype Meta = Meta(generation: nat, slot: nat, used: set<nat>, nodes: Nodes)

  ghost predicate Publishable(g: Geometry, m: Meta) {
    && GeomOk(g) && MetaOk(g, m.used, m.nodes) && m.slot <= 1 && m.generation < 0x1_0000_0000_0000_0000
  }

  /** The fresh read/write mount of published metadata. */
  function MountOf(g: Geometry, m: Meta): Fs {
    Fs(g, m.generation, m.slot, m.used, m.nodes, [], 1, false, false)
  }

  function ImageOf(g: Geometry, m: Meta): (s: seq<u8>)
    requires GeomOk(g) && NodesOk(g, m.nodes)
    ensures |s| == g.SlotBytes()
  {
    Serialize(Bitmap.Pack(m.used, g.BitmapLen()), m.nodes)
  }

  function SuperOf(g: Geometry, m: Meta): SuperBlock
    requires GeomOk(g) && NodesOk(g, m.nodes)
  {
    SuperBlock(m.generation, m.slot, Crc.Crc32(ImageOf(g, m)))
  }

  // ---- strict reload of what was serialized ------------------------------------------------

  lemma OverlapShares(g: Geometry, a: Node, b: Node) returns (x: nat)
    requires NodeOk(g, a) && NodeOk(g, b) && Overlap(a, b)
    ensures x in Blocks(a.extents) && x in Blocks(b.extents)
  {
    var k, l :| 0 <= k < |a.extents| && 0 <= l < |b.extents|
      && a.extents[k].start < b.extents[l].start + b.extents[l].len
      && b.extents[l].start < a.extents[k].start + a.extents[k].len;
    x := if a.extents[k].start < b.extents[l].start then b.extents[l].start else a.extents[k].start;
    assert ExtentOk(g, a.extents[k]) && ExtentOk(g, b.extents[l]);
    assert InExtent(a.extents[k], x) && InExtent(b.extents[l], x);
    InBlocks(a.extents, |a.extents|, x);
    InBlocks(b.extents, |b.extents|, x);
  }

  lemma NoOverlap(g: Geometry, nodes: Nodes, i: nat, j: nat)
    requires NodesOk(g, nodes) && Disjoint(nodes)
    requires j < i < MAX_NODES && nodes[i].Some? && nodes[j].Some?
    ensures !Overlap(nodes[i].value, nodes[j].value)
  {
    assert forall x | x in BlocksOf(nodes, i) :: x !in BlocksOf(nodes, j);
    if Overlap(nodes[i].value, nodes[j].value) {
      var x := OverlapShares(g, nodes[i].value, nodes[j].value);
    }
  }

  lemma MetaConsistent(g: Geometry, used: set<nat>, nodes: Nodes)
    requires MetaOk(g, used, nodes)
    ensures Consistent(nodes)
  {
    forall i, j | 0 <= j < i < MAX_NODES && nodes[i].Some? && nodes[j].Some?
      ensures !Conflict(nodes[i].value, nodes[j].value)
    {
      NoOverlap(g, nodes, i, j);
    }
  }

  lemma ImageDecodes(g: Geometry, m: Meta)
    requires GeomOk(g) && NodesOk(g, m.nodes)
    ensures ImageOk(g, ImageOf(g, m)) && NoneCorrupt(ImageOf(g, m), g)
    ensures DecodedNodes(ImageOf(g, m), g) == m.nodes
  {
    var bytes := Bitmap.Pack(m.used, g.BitmapLen());
    forall i | 0 <= i < MAX_NODES
      ensures ParseAt(ImageOf(g, m), g, i) == if m.nodes[i].Some? then Good(m.nodes[i].value) else Unused
    {
      SerializedParse(bytes, m.nodes, g, i);
    }
  }

  lemma ImageBitmap(g: Geometry, m: Meta)
    requires GeomOk(g) && NodesOk(g, m.nodes) && UsedFits(g, m.used)
    ensures Bitmap.Unpack(ImageOf(g, m)[..g.BitmapLen()]) == m.used
  {
    hide NodeTable, Bitmap.Unpack;
    assert ImageOf(g, m)[..g.BitmapLen()] == Bitmap.Pack(m.used, g.BitmapLen());
    Bitmap.UnpackPack(m.used, g.BitmapLen());
  }

  /** Publishable metadata survives serialization and strict loading unchanged. */
  lemma SlotRoundTrip(g: Geometry, m: Meta)
    requires Publishable(g, m)
    ensures ImageOk(g, ImageOf(g, m))
    ensures FromSlot(g, SuperOf(g, m), ImageOf(g, m)) == Some(MountOf(g, m))
  {
    ImageDecodes(g, m);
    MetaConsistent(g, m.used, m.nodes);
    ImageBitmap(g, m);
  }

  // ---- one operation with its block writes ----------------------------------------------------

  ghost predicate InData(g: Geometry, ws: seq<Write>) {
    forall k | 0 <= k < |ws| :: g.dataStart <= ws[k].lba < g.totalBlocks
  }

  lemma FitsDisk(g: Geometry, disk: Disk, data: seq<FileWrite>)
    requires |disk| == g.totalBlocks && DataFits(g, data)
    ensures forall j | 0 <= j < |data| :: WriteFits(disk, data[j])
  {
    forall j | 0 <= j < |data|
      ensures WriteFits(disk, data[j])
    {
      ExtentsOnDisk(g, disk, data[j].extents);
    }
  }

  lemma {:induction false} ExpandInData(g: Geometry, disk: Disk, data: seq<FileWrite>, k: nat)
    requires |disk| == g.totalBlocks && DataFits(g, data) && k <= |data|
    requires forall j | 0 <= j < |data| :: WriteFits(disk, data[j])
    ensures InData(g, Expand(disk, data, k))
  {
    if k > 0 {
      ExpandInData(g, disk, data, k - 1);
      var d := Apply(disk, Expand(disk, data, k - 1));
      OneWriteInData(g, d, data[k - 1]);
    }
  }

  lemma OneWriteInData(g: Geometry, disk: Disk, w: FileWrite)
    requires WriteFits(disk, w) && forall k | 0 <= k < |w.extents| :: ExtentOk(g, w.extents[k])
    ensures InData(g, DataWrites(disk, w.extents, w.offset, w.data, 0))
  {
    var ws := DataWrites(disk, w.extents, w.offset, w.data, 0);
    LoopTargets(disk, w.extents, w.offset, w.data, 0);
    forall k | 0 <= k < |ws|
      ensures g.dataStart <= ws[k].lba < g.totalBlocks
    {
      BlocksInData(g, w.extents, ws[k].lba);
    }
  }

  /** Data-block writes never disturb the standing image. */
  lemma DataStands(disk: Disk, g: Geometry, sb: SuperBlock, image: seq<u8>, ws: seq<Write>, k: nat)
    requires Stands(disk, g, sb, image) && InData(g, ws) && k <= |ws|
    ensures Stands(ApplyFirst(disk, ws, k), g, sb, image)
  {
    DeriveBounds(g);
    forall b | 0 <= b < g.dataStart
      ensures ApplyFirst(disk, ws, k)[b] == disk[b]
    {
      ApplyFrame(disk, ws, k, b);
    }
    StandsFrame(disk, ApplyFirst(disk, ws, k), g, sb, image);
  }

  /** Data writes followed by a publication, cut before the primary superblock:
      the old image still stands. */
  lemma CutBefore(disk: Disk, g: Geometry, sb: SuperBlock, image: seq<u8>, ws: seq<Write>, next: seq<u8>,
                  super: Block, k: nat)
    requires Stands(disk, g, sb, image) && InData(g, ws) && |next| == g.SlotBytes()
    requires k <= |ws| + g.slotBlocks && sb.activeSlot <= 1 && |disk| > 1
    ensures Stands(ApplyFirst(disk, ws + PublishWrites(g, 1 - sb.activeSlot, next, super), k), g, sb, image)
  {
    hide Stands, PublishWrites, SlotWrites, InData;
    var pub := PublishWrites(g, 1 - sb.activeSlot, next, super);
    var cut := ApplyFirst(disk, ws + pub, k);
    if k <= |ws| {
      ApplyPrefix(disk, ws, pub, k);
      assert cut == ApplyFirst(disk, ws, k);
      DataStands(disk, g, sb, image, ws, k);
    } else {
      var d := Apply(disk, ws);
      ApplyRest(disk, ws, pub, k - |ws|);
      DataStands(disk, g, sb, image, ws, |ws|);
      PublishPrefix(d, g, 1 - sb.activeSlot, next, super, k - |ws|);
      assert cut == ApplyFirst(d, SlotWrites(g, 1 - sb.activeSlot, next), k - |ws|);
      PublishBefore(d, g, sb, image, next, k - |ws|);
    }
  }

  /** Cut anywhere after it: the new image stands. */
  lemma CutAfter(disk: Disk, g: Geometry, sb: SuperBlock, image: seq<u8>, ws: seq<Write>, next: seq<u8>,
                 super: Block, k: nat)
    requires Stands(disk, g, sb, image) && InData(g, ws) && |next| == g.SlotBytes() && sb.activeSlot <= 1
    requires DecodeSuper(super, g) == Some(SuperBlock(sb.generation + 1, 1 - sb.activeSlot, Crc.Crc32(next)))
    requires |ws| + g.slotBlocks < k <= |ws| + g.slotBlocks + 2
    ensures Stands(ApplyFirst(disk, ws + PublishWrites(g, 1 - sb.activeSlot, next, super), k), g,
                   SuperBlock(sb.generation + 1, 1 - sb.activeSlot, Crc.Crc32(next)), next)
  {
    hide Stands, PublishWrites, SlotWrites, InData, DecodeSuper;
    var pub := PublishWrites(g, 1 - sb.activeSlot, next, super);
    ApplyRest(disk, ws, pub, k - |ws|);
    DataStands(disk, g, sb, image, ws, |ws|);
    PublishAfter(Apply(disk, ws), g, sb, image, next, super, k - |ws|);
  }

  // ---- an operation cut anywhere --------------------------------------------------------------

  /** The metadata a commit of `fs` publishes. */
  function NextMeta(fs: Fs): Meta
    requires fs.activeSlot <= 1
  {
    Meta(fs.generation + 1, 1 - fs.activeSlot, fs.used, fs.nodes)
  }

  predicate Commits(m: Mutation) { m.publish && m.fs.dirty && !m.fs.readOnly }

  lemma Publishing(fs: Fs)
    requires FsOk(fs) && fs.generation + 1 < 0x1_0000_0000_0000_0000
    ensures Publishable(fs.geom, NextMeta(fs))
    ensures ImageOf(fs.geom, NextMeta(fs)) == Image(fs) && SuperOf(fs.geom, NextMeta(fs)) == NextSuper(fs)
    ensures DecodeSuper(EncodeSuper(NextSuper(fs), fs.geom), fs.geom) == Some(NextSuper(fs))
  {
    hide NodesOk, TreeOk, AllocOk, DecodeSuper, EncodeSuper, Serialize;
    SuperRoundTrip(NextSuper(fs), fs.geom);
  }

  /** A permitted operation can run to its end; its writes are data blocks
      followed, if it commits, by the publication. */
  lemma OpWrites(fs: Fs, disk: Disk, op: Op)
    requires FsOk(fs) && |disk| == fs.geom.totalBlocks && Permitted(fs, op)
    ensures Mounted(fs, disk) && CanFinish(disk, Mutate(fs, disk, op))
    ensures StepOk(fs, Mutate(fs, disk, op))
    ensures var m := Mutate(fs, disk, op);
      && InData(fs.geom, Expand(disk, m.data, |m.data|))
      && Exec(fs, disk, op).writes == Expand(disk, m.data, |m.data|) + (if Commits(m) then CommitWrites(m.fs) else [])
  {
    hide Permitted, Mutate, MetaOk, Expand, CommitWrites, HandlesOk, Mounted;
    MutateOk(fs, disk, op);
    var m := Mutate(fs, disk, op);
    FitsDisk(fs.geom, disk, m.data);
    ExpandInData(fs.geom, disk, m.data, |m.data|);
    assert CanFinish(disk, m) by {
      assert FsOk(m.fs);
      assert MetaOk(m.fs.geom, m.fs.used, m.fs.nodes);
      MetaNodes(m.fs.geom, m.fs.used, m.fs.nodes);
    }
    var ws := Expand(disk, m.data, |m.data|);
    assert ws + [] == ws;
  }

  lemma MetaNodes(g: Geometry, used: set<nat>, nodes: Nodes)
    requires MetaOk(g, used, nodes)
    ensures NodesOk(g, nodes)
  {
  }

  /** What a cut after `k` block writes leaves published. */
  function Survivor(fs: Fs, disk: Disk, op: Op, saved: Meta, k: nat): Meta
    requires Mounted(fs, disk) && CanFinish(disk, Mutate(fs, disk, op))
  {
    var m := Mutate(fs, disk, op);
    if Commits(m) && k > |Expand(disk, m.data, |m.data|)| + fs.geom.slotBlocks then NextMeta(m.fs) else saved
  }

  /** The mounted state, and the metadata its disk would be remounted with. */
  ghost predicate InStep(disk: Disk, fs: Fs, saved: Meta) {
    && FsOk(fs) && |disk| == fs.geom.totalBlocks
    && Publishable(fs.geom, saved) && fs.generation == saved.generation && fs.activeSlot == saved.slot
    && Stands(disk, fs.geom, SuperOf(fs.geom, saved), ImageOf(fs.geom, saved))
  }

  lemma CommitCut(disk: Disk, fs: Fs, saved: Meta, ws: seq<Write>, k: nat)
    requires InStep(disk, fs, saved) && InData(fs.geom, ws) && fs.generation + 1 < 0x1_0000_0000_0000_0000
    requires k <= |ws + CommitWrites(fs)|
    ensures var g := fs.geom; var cut := ApplyFirst(disk, ws + CommitWrites(fs), k);
      var after := if k <= |ws| + g.slotBlocks then saved else NextMeta(fs);
      Publishable(g, after) && Stands(cut, g, SuperOf(g, after), ImageOf(g, after))
  {
    hide Stands, InData, NodesOk, TreeOk, AllocOk, UsedFits, DecodeSuper, EncodeSuper, Serialize, HandlesOk;
    var g := fs.geom;
    Publishing(fs);
    var super := EncodeSuper(NextSuper(fs), g);
    assert CommitWrites(fs) == PublishWrites(g, 1 - fs.activeSlot, Image(fs), super);
    if k <= |ws| + g.slotBlocks {
      CutBefore(disk, g, SuperOf(g, saved), ImageOf(g, saved), ws, Image(fs), super, k);
    } else {
      CutAfter(disk, g, SuperOf(g, saved), ImageOf(g, saved), ws, Image(fs), super, k);
    }
  }

  /** Mounting what stands gives the published metadata, read/write. */
  lemma LoadPublished(disk: Disk, g: Geometry, m: Meta)
    requires Publishable(g, m) && |disk| == g.totalBlocks && Stands(disk, g, SuperOf(g, m), ImageOf(g, m))
    ensures Load(disk, g) == Loaded(MountOf(g, m))
    ensures InStep(disk, MountOf(g, m), m)
  {
    hide Stands, NodesOk, TreeOk, AllocOk, UsedFits, Serialize, FromSlot, Load;
    SlotRoundTrip(g, m);
    LoadStanding(disk, g, SuperOf(g, m), ImageOf(g, m), MountOf(g, m));
  }

  /** A change of memory that leaves the published generation alone. */
  lemma InStepWith(disk: Disk, fs: Fs, saved: Meta, m: Mutation)
    requires InStep(disk, fs, saved) && StepOk(fs, m)
    ensures InStep(disk, m.fs, saved)
  {
    hide Stands, MetaOk, HandlesOk, DataFits, NodesOk, ImageOf;
  }

  /** Crash atomicity of one operation: cut after any number of block writes,
      the disk mounts read/write with exactly the last published metadata, or,
      from the primary superblock write on, exactly the metadata being
      published. */
  lemma CrashAnywhere(disk: Disk, fs: Fs, saved: Meta, op: Op, k: nat)
    requires InStep(disk, fs, saved) && Permitted(fs, op) && fs.generation + 1 < 0x1_0000_0000_0000_0000
    requires Mounted(fs, disk) && CanFinish(disk, Mutate(fs, disk, op)) && k <= |Exec(fs, disk, op).writes|
    ensures var cut := ApplyFirst(disk, Exec(fs, disk, op).writes, k);
      var after := Survivor(fs, disk, op, saved, k);
      && Publishable(fs.geom, after)
      && Stands(cut, fs.geom, SuperOf(fs.geom, after), ImageOf(fs.geom, after))
      && Load(cut, fs.geom) == Loaded(MountOf(fs.geom, after))
      && InStep(cut, MountOf(fs.geom, after), after)
  {
    hide Stands, TreeOk, AllocOk, UsedFits, NodesOk, HandlesOk, DataFits, Mounted, Permitted, Mutate, Expand,
         CommitWrites, Load, WriteFits, GeomOk, SuperOf, ImageOf;
    OpWrites(fs, disk, op);
    var m := Mutate(fs, disk, op);
    var ws := Expand(disk, m.data, |m.data|);
    InStepWith(disk, fs, saved, m);
    var after := Survivor(fs, disk, op, saved, k);
    if Commits(m) {
      CommitCut(disk, m.fs, saved, ws, k);
    } else {
      DataStands(disk, fs.geom, SuperOf(fs.geom, saved), ImageOf(fs.geom, saved), ws, k);
    }
    LoadPublished(ApplyFirst(disk, Exec(fs, disk, op).writes, k), fs.geom, after);
  }

  lemma Resume(disk: Disk, fs: Fs, saved: Meta)
    requires InStep(disk, MountOf(fs.geom, saved), saved) && FsOk(fs)
    requires fs.generation == saved.generation && fs.activeSlot == saved.slot
    ensures InStep(disk, fs, saved)
  {
    hide Stands, MetaOk, HandlesOk, SuperOf, ImageOf;
  }

  lemma CommittedOk(fs: Fs)
    requires FsOk(fs)
    ensures FsOk(Committed(fs))
  {
  }

  /** Run to its end, an operation leaves memory and disk in step again. */
  lemma OpKeepsStep(disk: Disk, fs: Fs, saved: Meta, op: Op)
    requires InStep(disk, fs, saved) && Permitted(fs, op) && fs.generation + 1 < 0x1_0000_0000_0000_0000
    requires Mounted(fs, disk) && CanFinish(disk, Mutate(fs, disk, op))
    ensures var e := Exec(fs, disk, op);
      InStep(Apply(disk, e.writes), e.fs, Survivor(fs, disk, op, saved, |e.writes|))
  {
    hide FsOk, Stands, DataFits, Mounted, Permitted, Mutate, Expand, WriteFits, CommitWrites, Load, NodesOk,
         Publishable;
    var n := |Exec(fs, disk, op).writes|;
    OpWrites(fs, disk, op);
    CrashAnywhere(disk, fs, saved, op, n);
    var m := Mutate(fs, disk, op);
    if Commits(m) {
      CommittedOk(m.fs);
    }
    Resume(Apply(disk, Exec(fs, disk, op).writes), Exec(fs, disk, op).fs, Survivor(fs, disk, op, saved, n));
  }
}
