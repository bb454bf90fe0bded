/** The file system as callers see it: paths to byte strings. Every operation
    acts on that view as the plain operation on paths and strings it names. */
module FsView {
  import opened Bytes
  import opened FsFormat
  import opened FsNode
  import opened FsAlloc
  import opened FsTree
  import opened FsOps
  import opened FsInv
  import opened FsData
  import opened FsStep

  datatype Doc = Doc(fileType: FileType, bytes: seq<u8>)

  ghost predicate AllReadable(nodes: Nodes, disk: Disk) {
    forall i | 0 <= i < MAX_NODES && nodes[i].Some? :: Readable(disk, nodes[i].value)
  }

  ghost function DocAt(nodes: Nodes, disk: Disk, i: nat): Doc
    requires AllReadable(nodes, disk) && i < MAX_NODES && nodes[i].Some?
  {
    Doc(nodes[i].value.fileType, Content(disk, nodes[i].value))
  }

  /** What lives at path `p`. */
  ghost function Lookup(nodes: Nodes, disk: Disk, p: Path): Option<Doc>
    requires AllReadable(nodes, disk)
  {
    match FindPath(nodes, p, 0) case None => None case Some(i) => Some(DocAt(nodes, disk, i))
  }

  lemma OkReadable(fs: Fs, disk: Disk)
    requires FsOk(fs) && |disk| == fs.geom.totalBlocks
    ensures AllReadable(fs.nodes, disk)
  {
    forall i | 0 <= i < MAX_NODES && fs.nodes[i].Some?
      ensures Readable(disk, fs.nodes[i].value)
    {
      ReadableNode(fs, disk, i);
    }
  }

  // ---- one node written --------------------------------------------------------------

  /** Every other node is the same and reads the same. */
  ghost predicate OthersKept(nodes: Nodes, disk: Disk, nodes': Nodes, disk': Disk, i: nat) {
    forall j | 0 <= j < MAX_NODES && j != i ::
      && nodes'[j] == nodes[j]
      && (nodes[j].Some? ==>
           && Readable(disk, nodes[j].value) && Readable(disk', nodes[j].value)
           && Content(disk', nodes[j].value) == Content(disk, nodes[j].value))
  }

  lemma ExpandOne(disk: Disk, w: FileWrite)
    requires WriteFits(disk, w)
    ensures Expand(disk, [w], 1) == DataWrites(disk, w.extents, w.offset, w.data, 0)
  {
    hide DataWrites, WriteFits;
    assert Expand(disk, [w], 0) == [];
    assert Apply(disk, []) == disk;
  }

  /** Writing through node `i`'s extents leaves every other node's bytes alone. */
  lemma OthersUntouched(fs: Fs, disk: Disk, i: nat, ws: seq<Write>)
    requires OkButSize(fs, i) && |disk| == fs.geom.totalBlocks
    requires forall k | 0 <= k < |ws| :: ws[k].lba in BlocksOf(fs.nodes, i)
    ensures OthersKept(fs.nodes, disk, fs.nodes, Apply(disk, ws), i)
  {
    forall j | 0 <= j < MAX_NODES && j != i && fs.nodes[j].Some?
      ensures Readable(disk, fs.nodes[j].value) && Readable(Apply(disk, ws), fs.nodes[j].value)
      ensures Content(Apply(disk, ws), fs.nodes[j].value) == Content(disk, fs.nodes[j].value)
    {
      OneOtherUntouched(fs, disk, i, ws, j);
    }
  }

  lemma OneOtherUntouched(fs: Fs, disk: Disk, i: nat, ws: seq<Write>, j: nat)
    requires OkButSize(fs, i) && |disk| == fs.geom.totalBlocks
    requires forall k | 0 <= k < |ws| :: ws[k].lba in BlocksOf(fs.nodes, i)
    requires j < MAX_NODES && j != i && fs.nodes[j].Some?
    ensures Readable(disk, fs.nodes[j].value) && Readable(Apply(disk, ws), fs.nodes[j].value)
    ensures Content(Apply(disk, ws), fs.nodes[j].value) == Content(disk, fs.nodes[j].value)
  {
    hide Content, Readable, Apply, TreeOk, UsedFits, HandlesOk, Exact;
    var n := fs.nodes[j].value;
    assert NodeOk(fs.geom, fs.nodes[i := Some(fs.nodes[i].value.(size := 0))][j].value);
    NodeReadable(fs.geom, disk, n);
    forall k | 0 <= k < |ws|
      ensures ws[k].lba !in Blocks(n.extents)
    {
      assert Blocks(n.extents) == BlocksOf(fs.nodes, j);
    }
    UntouchedContent(disk, ws, n);
  }

  /** The disk once the file data of `m` is written. */
  function DiskOf(disk: Disk, m: Mutation): (d: Disk)
    requires forall j | 0 <= j < |m.data| :: WriteFits(disk, m.data[j])
    ensures |d| == |disk|
  {
    Apply(disk, Expand(disk, m.data, |m.data|))
  }

  lemma NoData(disk: Disk, m: Mutation)
    requires m.data == []
    ensures DiskOf(disk, m) == disk
  {
  }

  /** A successful write through node `i`, taking its first `size` bytes as the
      file: those bytes with `input` laid over them from `offset` on. */
  lemma WriteContent(fs: Fs, disk: Disk, i: nat, size: nat, offset: nat, input: seq<u8>, now: u64)
    requires OkButSize(fs, i) && CanWrite(fs, i) && |disk| == fs.geom.totalBlocks
    requires size <= Allocated(fs.nodes[i].value.extents) * BLOCK_SIZE
    requires WriteNode(fs, i, offset, input, now).result.Ok?
    ensures var m := WriteNode(fs, i, offset, input, now);
      var n := fs.nodes[i].value.(size := size);
      var n' := m.fs.nodes[i].value.(size := Max(size, offset + |input|));
      && (forall j | 0 <= j < |m.data| :: WriteFits(disk, m.data[j]))
      && Readable(disk, n) && Readable(DiskOf(disk, m), n')
      && Overlaid(Content(disk, n), Content(DiskOf(disk, m), n'), offset, input)
      && OthersKept(fs.nodes, disk, m.fs.nodes, DiskOf(disk, m), i)
  {
    hide Content, Readable, TreeOk, UsedFits, HandlesOk, Exact, DataWrites, Overlaid, OthersKept;
    var m := WriteNode(fs, i, offset, input, now);
    var n := fs.nodes[i].value;
    var needed := CeilDiv(offset + |input|, BLOCK_SIZE);
    DeriveBounds(fs.geom);
    var added := EnsureCorrect(fs.used, fs.geom, n.extents, needed);
    var ext := m.fs.nodes[i].value.extents;
    WriteNodeOk(fs, i, offset, input, now);
    ExtentsOnDisk(fs.geom, disk, n.extents);
    ExtentsOnDisk(fs.geom, disk, ext);
    ExpandOne(disk, m.data[0]);
    assert Readable(disk, n.(size := size)) by { BackedReadable(disk, n.(size := size)); }
    assert NoDup(BlocksOf(m.fs.nodes, i));
    WriteOverlays(disk, n.(size := size), ext, offset, input, now);
    LoopTargets(disk, ext, offset, input, 0);
    OthersUntouched(m.fs, disk, i, DataWrites(disk, ext, offset, input, 0));
    OthersKeptFrom(m.fs.nodes, disk, fs.nodes, DiskOf(disk, m), i);
  }

  lemma BackedReadable(disk: Disk, n: Node)
    requires OnDisk(disk, n.extents) && n.size <= Allocated(n.extents) * BLOCK_SIZE
    ensures Readable(disk, n)
  {
  }

  lemma OthersKeptFrom(nodes': Nodes, disk: Disk, nodes: Nodes, disk': Disk, i: nat)
    requires OthersKept(nodes', disk, nodes', disk', i)
    requires forall j | 0 <= j < MAX_NODES && j != i :: nodes'[j] == nodes[j]
    ensures OthersKept(nodes, disk, nodes', disk', i)
  {
  }

  /** A write that finds no room writes nothing and keeps the file's bytes. */
  lemma FailedContent(fs: Fs, disk: Disk, i: nat, offset: nat, input: seq<u8>, now: u64)
    requires FsOk(fs) && CanWrite(fs, i) && fs.nodes[i].value.fileType == File && |disk| == fs.geom.totalBlocks
    requires WriteNode(fs, i, offset, input, now).result.Err?
    ensures var m := WriteNode(fs, i, offset, input, now);
      && m.data == [] && Readable(disk, fs.nodes[i].value) && Readable(disk, m.fs.nodes[i].value)
      && Content(disk, m.fs.nodes[i].value) == Content(disk, fs.nodes[i].value)
      && m.fs.nodes[i].value.size == fs.nodes[i].value.size
      && OthersKept(fs.nodes, disk, m.fs.nodes, disk, i)
  {
    hide Content, TreeOk, UsedFits, HandlesOk, Exact;
    var n := fs.nodes[i].value;
    OkReadable(fs, disk);
    if offset + |input| < 0x1_0000_0000_0000_0000 {
      var needed := CeilDiv(offset + |input|, BLOCK_SIZE);
      DeriveBounds(fs.geom);
      var added := EnsureCorrect(fs.used, fs.geom, n.extents, needed);
      var ext := WriteNode(fs, i, offset, input, now).fs.nodes[i].value.extents;
      ExtentsOnDisk(fs.geom, disk, ext);
      GrowKeepsContent(disk, n, ext);
    }
  }

  // ---- zero extension -----------------------------------------------------------------

  lemma {:induction false} ExpandConcat(disk: Disk, a: seq<FileWrite>, b: seq<FileWrite>, k: nat)
    requires k <= |b| && forall j | 0 <= j < |a + b| :: WriteFits(disk, (a + b)[j])
    requires forall j | 0 <= j < |a| :: WriteFits(disk, a[j])
    requires forall j | 0 <= j < |b| :: WriteFits(Apply(disk, Expand(disk, a, |a|)), b[j])
    ensures Expand(disk, a + b, |a| + k)
      == Expand(disk, a, |a|) + Expand(Apply(disk, Expand(disk, a, |a|)), b, k)
  {
    hide OnDisk, Allocated, DataWrites, Apply;
    if k == 0 {
      ExpandPrefix(disk, a, b, |a|);
    } else {
      var first := Expand(disk, a, |a|);
      var d := Apply(disk, first);
      ExpandConcat(disk, a, b, k - 1);
      var part := Expand(d, b, k - 1);
      ApplyConcat(disk, first, part);
      var w := b[k - 1];
      assert (a + b)[|a| + k - 1] == w;
      FitsAnywhere(d, Apply(d, part), w);
      var last := DataWrites(Apply(d, part), w.extents, w.offset, w.data, 0);
      assert Expand(d, b, k) == part + last;
      assert Expand(disk, a + b, |a| + k) == (first + part) + last;
      assert (first + part) + last == first + (part + last);
    }
  }

  lemma {:induction false} ExpandPrefix(disk: Disk, a: seq<FileWrite>, b: seq<FileWrite>, k: nat)
    requires k <= |a| && forall j | 0 <= j < |a + b| :: WriteFits(disk, (a + b)[j])
    requires forall j | 0 <= j < |a| :: WriteFits(disk, a[j])
    ensures Expand(disk, a + b, k) == Expand(disk, a, k)
  {
    hide WriteFits, DataWrites, Apply;
    if k > 0 {
      ExpandPrefix(disk, a, b, k - 1);
      assert (a + b)[k - 1] == a[k - 1];
    }
  }

  /** Node `i` reads as before followed by zeros; every other node is kept. */
  ghost predicate Extended(nodes: Nodes, disk: Disk, nodes': Nodes, disk': Disk, i: nat) {
    && OthersKept(nodes, disk, nodes', disk', i)
    && i < MAX_NODES && nodes[i].Some? && nodes'[i].Some?
    && nodes'[i].value.path == nodes[i].value.path && nodes'[i].value.fileType == nodes[i].value.fileType
    && Readable(disk, nodes[i].value) && Readable(disk', nodes'[i].value)
    && nodes[i].value.size <= nodes'[i].value.size
    && Content(disk', nodes'[i].value) == Content(disk, nodes[i].value)
    + Zeros(nodes'[i].value.size - nodes[i].value.size)
  }

  lemma ZerosAdd(a: nat, b: nat)
    ensures Zeros(a) + Zeros(b) == Zeros(a + b)
  {
  }

  lemma ExtendedTrans(n0: Nodes, d0: Disk, n1: Nodes, d1: Disk, n2: Nodes, d2: Disk, i: nat)
    requires Extended(n0, d0, n1, d1, i) && Extended(n1, d1, n2, d2, i)
    ensures Extended(n0, d0, n2, d2, i)
  {
    hide Readable, Content, Zeros;
    var a, b := n1[i].value.size - n0[i].value.size, n2[i].value.size - n1[i].value.size;
    ZerosAdd(a, b);
    var c := Content(d0, n0[i].value);
    assert (c + Zeros(a)) + Zeros(b) == c + (Zeros(a) + Zeros(b));
    forall j | 0 <= j < MAX_NODES && j != i && n0[j].Some?
      ensures Content(d2, n0[j].value) == Content(d0, n0[j].value)
    {
      assert n1[j] == n0[j];
    }
  }

  lemma ZeroStep(fs: Fs, disk: Disk, i: nat, chunk: nat, now: u64)
    requires FsOk(fs) && CanWrite(fs, i) && fs.nodes[i].value.fileType == File && |disk| == fs.geom.totalBlocks
    ensures var m := WriteNode(fs, i, fs.nodes[i].value.size, Zeros(chunk), now);
      && (forall j | 0 <= j < |m.data| :: WriteFits(disk, m.data[j]))
      && Extended(fs.nodes, disk, m.fs.nodes, DiskOf(disk, m), i)
      && (m.result.Ok? ==> m.fs.nodes[i].value.size == fs.nodes[i].value.size + chunk)
  {
    hide Content, Readable, TreeOk, UsedFits, HandlesOk, Exact, Overlaid, OthersKept, EnsureBlocks;
    var n := fs.nodes[i].value;
    var m := WriteNode(fs, i, n.size, Zeros(chunk), now);
    OkIsOkButSize(fs, i);
    assert NodeOk(fs.geom, n);
    if m.result.Err? {
      FailedContent(fs, disk, i, n.size, Zeros(chunk), now);
      assert DiskOf(disk, m) == disk;
      assert Content(disk, n) + Zeros(0) == Content(disk, n);
    } else {
      WriteContent(fs, disk, i, n.size, n.size, Zeros(chunk), now);
      assert n.(size := n.size) == n;
      var n' := m.fs.nodes[i].value;
      assert n'.(size := Max(n.size, n.size + chunk)) == n';
      OverlaidIsSplice(Content(disk, n), Content(DiskOf(disk, m), n'), n.size, Zeros(chunk));
    }
  }

  lemma {:induction false} ZeroContent(fs: Fs, disk: Disk, i: nat, remaining: nat, now: u64)
    requires FsOk(fs) && CanWrite(fs, i) && fs.nodes[i].value.fileType == File && |disk| == fs.geom.totalBlocks
    ensures var m := ZeroExtend(fs, i, fs.nodes[i].value.size, remaining, now);
      && (forall j | 0 <= j < |m.data| :: WriteFits(disk, m.data[j]))
      && Extended(fs.nodes, disk, m.fs.nodes, DiskOf(disk, m), i)
      && (m.result.Ok? ==> m.fs.nodes[i].value.size == fs.nodes[i].value.size + remaining)
    decreases remaining
  {
    hide WriteNode, FsOk, Extended, Content, WriteFits, Zeros, Expand, Apply, DataFits;
    var size := fs.nodes[i].value.size;
    if remaining == 0 {
      OkReadable(fs, disk);
      NoData(disk, Mutation(fs, [], DONE, false));
      ExtendedRefl(fs.nodes, disk, i);
    } else {
      var chunk := Min(remaining, BLOCK_SIZE);
      var m := WriteNode(fs, i, size, Zeros(chunk), now);
      ZeroStep(fs, disk, i, chunk, now);
      if m.result.Ok? {
        ExtendOnce(fs, i, size, Zeros(chunk), now);
        var disk1 := DiskOf(disk, m);
        ZeroContent(m.fs, disk1, i, remaining - chunk, now);
        var rest := ZeroExtend(m.fs, i, size + chunk, remaining - chunk, now);
        ZeroJoin(fs, disk, i, m, rest);
      }
    }
  }

  lemma ExtendedRefl(nodes: Nodes, disk: Disk, i: nat)
    requires AllReadable(nodes, disk) && i < MAX_NODES && nodes[i].Some?
    ensures Extended(nodes, disk, nodes, disk, i)
  {
    assert Content(disk, nodes[i].value) + Zeros(0) == Content(disk, nodes[i].value);
  }

  lemma FitsAnywhere(disk: Disk, disk': Disk, w: FileWrite)
    requires WriteFits(disk, w) && |disk| == |disk'|
    ensures WriteFits(disk', w)
  {
  }

  lemma ZeroJoin(fs: Fs, disk: Disk, i: nat, m: Mutation, rest: Mutation)
    requires forall j | 0 <= j < |m.data| :: WriteFits(disk, m.data[j])
    requires forall j | 0 <= j < |rest.data| :: WriteFits(DiskOf(disk, m), rest.data[j])
    requires Extended(fs.nodes, disk, m.fs.nodes, DiskOf(disk, m), i)
    requires Extended(m.fs.nodes, DiskOf(disk, m), rest.fs.nodes, DiskOf(DiskOf(disk, m), rest), i)
    ensures var both := Mutation(rest.fs, m.data + rest.data, rest.result, false);
      && (forall j | 0 <= j < |both.data| :: WriteFits(disk, both.data[j]))
      && Extended(fs.nodes, disk, both.fs.nodes, DiskOf(disk, both), i)
  {
    hide Extended, WriteFits, Apply, Expand;
    var both := Mutation(rest.fs, m.data + rest.data, rest.result, false);
    forall j | 0 <= j < |both.data|
      ensures WriteFits(disk, both.data[j])
    {
      if j < |m.data| {
        assert both.data[j] == m.data[j];
      } else {
        assert both.data[j] == rest.data[j - |m.data|];
        FitsAnywhere(DiskOf(disk, m), disk, both.data[j]);
      }
    }
    ExpandConcat(disk, m.data, rest.data, |rest.data|);
    ApplyConcat(disk, Expand(disk, m.data, |m.data|), Expand(DiskOf(disk, m), rest.data, |rest.data|));
    ExtendedTrans(fs.nodes, disk, m.fs.nodes, DiskOf(disk, m), rest.fs.nodes, DiskOf(DiskOf(disk, m), rest), i);
  }

  // ---- shrinking ------------------------------------------------------------------------

  /** A shrink that finds room leaves exactly the kept prefix. */
  lemma ShrinkContent(fs: Fs, disk: Disk, i: nat, keep: seq<u8>, now: u64)
    requires FsOk(fs) && CanWrite(fs, i) && fs.nodes[i].value.fileType == File && |disk| == fs.geom.totalBlocks
    requires |keep| < fs.nodes[i].value.size && Shrink(fs, i, keep, now).result.Ok?
    ensures var m := Shrink(fs, i, keep, now);
      && (forall j | 0 <= j < |m.data| :: WriteFits(disk, m.data[j]))
      && OthersKept(fs.nodes, disk, m.fs.nodes, DiskOf(disk, m), i)
      && m.fs.nodes[i].Some? && m.fs.nodes[i].value.fileType == File
      && m.fs.nodes[i].value.path == fs.nodes[i].value.path
      && Readable(DiskOf(disk, m), m.fs.nodes[i].value)
      && Content(DiskOf(disk, m), m.fs.nodes[i].value) == keep
  {
    hide FsOk, OkButSize, OthersKept, Overlaid, Content, EnsureBlocks, Readable;
    var freed := Release(fs, i);
    var m := Shrink(fs, i, keep, now);
    ReleasedOk(fs, i);
    if keep == [] {
      assert DiskOf(disk, m) == disk;
      OkReadable(fs, disk);
      EmptyContent(disk, m.fs.nodes[i].value);
      KeptRefl(fs.nodes, disk, m.fs.nodes, i);
    } else {
      var w := WriteNode(freed, i, 0, keep, now);
      WriteContent(freed, disk, i, 0, 0, keep, now);
      assert DiskOf(disk, m) == DiskOf(disk, w);
      assert m.fs.nodes[i].value == w.fs.nodes[i].value.(size := |keep|);
      EmptyContent(disk, freed.nodes[i].value.(size := 0));
      FreshOverlay(Content(disk, freed.nodes[i].value.(size := 0)),
                   Content(DiskOf(disk, m), m.fs.nodes[i].value), keep);
      OthersChain(fs.nodes, freed.nodes, disk, w.fs.nodes, m.fs.nodes, DiskOf(disk, m), i);
    }
  }

  lemma EmptyContent(disk: Disk, n: Node)
    requires n.extents == [] && n.size == 0
    ensures Readable(disk, n) && Content(disk, n) == []
  {
  }

  lemma FreshOverlay(was: seq<u8>, now: seq<u8>, input: seq<u8>)
    requires Overlaid(was, now, 0, input) && was == []
    ensures now == input
  {
  }

  lemma KeptRefl(nodes: Nodes, disk: Disk, nodes': Nodes, i: nat)
    requires AllReadable(nodes, disk) && forall j | 0 <= j < MAX_NODES && j != i :: nodes'[j] == nodes[j]
    ensures OthersKept(nodes, disk, nodes', disk, i)
  {
  }

  lemma OthersChain(n0: Nodes, n1: Nodes, disk: Disk, n2: Nodes, n3: Nodes, disk': Disk, i: nat)
    requires OthersKept(n1, disk, n2, disk', i)
    requires forall j | 0 <= j < MAX_NODES && j != i :: n0[j] == n1[j] && n2[j] == n3[j]
    ensures OthersKept(n0, disk, n3, disk', i)
  {
  }
}
