/** Documents over whole histories: every call acts on them as its plain
    operation says, and a committed file that no call aims at reads the same
    through any run of calls and crashes. */
module FsDurable {
  import opened Bytes
  import opened FsFormat
  import opened FsNode
  import opened FsAlloc
  import opened FsTree
  import opened FsOps
  import opened FsInv
  import opened FsData
  import opened FsStep
  import opened FsLoad
  import opened FsCrash
  import opened FsRuns
  import opened FsView
  import opened FsRefine
  import opened FsHistory

  /** The call aims at node `i`. */
  ghost predicate Hits(fs: Fs, op: Op, i: nat)
    requires i < MAX_NODES && fs.nodes[i].Some?
  {
    var p := fs.nodes[i].value.path;
    match op
    case Remove(path) => p == Clean(path)
    case Truncate(path, _) => p == Clean(path)
    case Rename(src, _, _) => p == Clean(src) || Under(p, Clean(src))
    case WriteTo(handle, _, _) => Through(fs, handle, i)
    case Ftruncate(handle, _, _) => Through(fs, handle, i)
    case _ => false
  }

  ghost predicate Through(fs: Fs, handle: nat, i: nat) {
    var k := FindHandle(fs.handles, handle, 0);
    k.Some? && fs.handles[k.value].node == i
  }

  // ---- one call ---------------------------------------------------------------------------

  /** No block of `ext` is written. */
  ghost predicate Aside(data: seq<FileWrite>, ext: seq<Extent>) {
    forall d, b | 0 <= d < |data| && b in Blocks(data[d].extents) :: b !in Blocks(ext)
  }

  lemma WriteAside(fs: Fs, t: nat, offset: nat, input: seq<u8>, now: u64, i: nat)
    requires OkButSize(fs, t) && CanWrite(fs, t) && i < MAX_NODES && i != t && fs.nodes[i].Some?
    ensures var m := WriteNode(fs, t, offset, input, now);
      m.fs.nodes[i] == fs.nodes[i] && Aside(m.data, fs.nodes[i].value.extents)
  {
    hide TreeOk, UsedFits, HandlesOk, Exact, EnsureBlocks;
    var m := WriteNode(fs, t, offset, input, now);
    WriteNodeOk(fs, t, offset, input, now);
    assert BlocksOf(m.fs.nodes, i) == Blocks(fs.nodes[i].value.extents);
    assert m.data != [] ==> Blocks(m.data[0].extents) == BlocksOf(m.fs.nodes, t);
  }

  lemma {:induction false} ZeroAside(fs: Fs, t: nat, offset: nat, remaining: nat, now: u64, i: nat)
    requires FsOk(fs) && CanWrite(fs, t) && fs.nodes[t].value.fileType == File
    requires i < MAX_NODES && i != t && fs.nodes[i].Some?
    ensures var m := ZeroExtend(fs, t, offset, remaining, now);
      m.fs.nodes[i] == fs.nodes[i] && Aside(m.data, fs.nodes[i].value.extents)
    decreases remaining
  {
    hide FsOk, OkButSize, WriteNode;
    if remaining > 0 {
      var chunk := Min(remaining, BLOCK_SIZE);
      OkIsOkButSize(fs, t);
      WriteAside(fs, t, offset, Zeros(chunk), now, i);
      ExtendOnce(fs, t, offset, Zeros(chunk), now);
      var m := WriteNode(fs, t, offset, Zeros(chunk), now);
      if m.result.Ok? {
        ZeroAside(m.fs, t, offset + chunk, remaining - chunk, now, i);
      }
    }
  }

  lemma ShrinkAside(fs: Fs, t: nat, keep: seq<u8>, now: u64, i: nat)
    requires FsOk(fs) && CanWrite(fs, t) && fs.nodes[t].value.fileType == File
    requires i < MAX_NODES && i != t && fs.nodes[i].Some?
    ensures var m := Shrink(fs, t, keep, now);
      m.fs.nodes[i] == fs.nodes[i] && Aside(m.data, fs.nodes[i].value.extents)
  {
    hide FsOk, OkButSize, WriteNode;
    ReleasedOk(fs, t);
    WriteAside(Release(fs, t), t, 0, keep, now, i);
  }

  /** A call aimed elsewhere leaves a node's entry and blocks alone. */
  lemma MutateAside(fs: Fs, disk: Disk, op: Op, i: nat)
    requires FsOk(fs) && Mounted(fs, disk) && i < MAX_NODES && fs.nodes[i].Some? && !Hits(fs, op, i)
    ensures var m := Mutate(fs, disk, op);
      m.fs.nodes[i] == fs.nodes[i] && Aside(m.data, fs.nodes[i].value.extents)
  {
    hide TreeOk, UsedFits, Exact, Disjoint, NodesOk, WriteNode, ZeroExtend, Shrink, Aside, ReadBytes, Clean;
    var m := Mutate(fs, disk, op);
    NothingAside(fs.nodes[i].value.extents);
    match op
    case WriteTo(handle, data, now) =>
      var k := FindHandle(fs.handles, handle, 0);
      if k.Some? && fs.handles[k.value].flags.write {
        var h := fs.handles[k.value];
        OkIsOkButSize(fs, h.node);
        WriteAside(fs, h.node, WriteOffset(fs, h), data, now, i);
      }
    case Ftruncate(handle, target, now) =>
      var k := FindHandle(fs.handles, handle, 0);
      if k.Some? && fs.handles[k.value].flags.write && !fs.readOnly {
        var t := fs.handles[k.value].node;
        OkIsOkButSize(fs, t);
        ReadableNode(fs, disk, t);
        var cur := fs.nodes[t].value.size;
        if target < cur {
          ShrinkAside(fs, t, ReadBytes(disk, fs.nodes[t].value, 0, target), now, i);
        } else if target > cur {
          ZeroAside(fs, t, cur, target - cur, now, i);
        }
      }
    case Rename(src, dst, now) =>
    case Remove(path) =>
    case Truncate(path, now) =>
    case Create(path, directory, now) =>
    case _ =>
  }

  lemma NothingAside(ext: seq<Extent>)
    ensures Aside([], ext)
  {
  }

  lemma {:induction false} ExpandAside(disk: Disk, data: seq<FileWrite>, k: nat, ext: seq<Extent>)
    requires k <= |data| && Aside(data, ext) && forall j | 0 <= j < |data| :: WriteFits(disk, data[j])
    ensures forall j | 0 <= j < |Expand(disk, data, k)| :: Expand(disk, data, k)[j].lba !in Blocks(ext)
  {
    hide Apply, DataWrites, Blocks, Allocated;
    if k > 0 {
      ExpandAside(disk, data, k - 1, ext);
      var d := Apply(disk, Expand(disk, data, k - 1));
      var w := data[k - 1];
      FitsAnywhere(disk, d, w);
      LoopTargets(d, w.extents, w.offset, w.data, 0);
    }
  }

  lemma CommitAside(fs: Fs, ext: seq<Extent>)
    requires FsOk(fs) && forall k | 0 <= k < |ext| :: ExtentOk(fs.geom, ext[k])
    ensures NodesOk(fs.geom, fs.nodes)
    ensures forall j | 0 <= j < |CommitWrites(fs)| :: CommitWrites(fs)[j].lba !in Blocks(ext)
  {
    hide Blocks, EncodeSuper, NextSuper, Image, TreeOk, AllocOk, UsedFits, HandlesOk;
    DeriveBounds(fs.geom);
    var ws := CommitWrites(fs);
    forall j | 0 <= j < |ws|
      ensures ws[j].lba !in Blocks(ext)
    {
      assert ws[j].lba < fs.geom.dataStart;
      if ws[j].lba in Blocks(ext) {
        BlocksInData(fs.geom, ext, ws[j].lba);
      }
    }
  }

  /** Cut after any number of its block writes, a call aimed elsewhere leaves the
      bytes of a node as they were. */
  lemma CutKeeps(fs: Fs, disk: Disk, op: Op, i: nat, k: nat)
    requires FsOk(fs) && |disk| == fs.geom.totalBlocks && Permitted(fs, op)
    requires i < MAX_NODES && fs.nodes[i].Some? && !Hits(fs, op, i)
    requires Mounted(fs, disk) && CanFinish(disk, Mutate(fs, disk, op)) && k <= |Exec(fs, disk, op).writes|
    ensures Mutate(fs, disk, op).fs.nodes[i] == fs.nodes[i]
    ensures var n, cut := fs.nodes[i].value, ApplyFirst(disk, Exec(fs, disk, op).writes, k);
      Readable(disk, n) && Readable(cut, n) && Content(cut, n) == Content(disk, n)
  {
    hide TreeOk, AllocOk, UsedFits, HandlesOk, Permitted, Hits, Mutate, Expand, CommitWrites, Content, Readable, Aside,
         DataFits, WriteFits, Blocks;
    OpWrites(fs, disk, op);
    var m := Mutate(fs, disk, op);
    var n := fs.nodes[i].value;
    assert NodeOk(fs.geom, n);
    MutateAside(fs, disk, op, i);
    ExpandAside(disk, m.data, |m.data|, n.extents);
    if Commits(m) {
      CommitAside(m.fs, n.extents);
    }
    NodeReadable(fs.geom, disk, n);
    var ws := Exec(fs, disk, op).writes;
    assert ws == ws[..k] + ws[k..];
    ApplyPrefix(disk, ws[..k], ws[k..], k);
    UntouchedContent(disk, ws[..k], n);
  }

  // ---- histories ----------------------------------------------------------------------------

  /** Node `i` is `n`, in memory and in what was last committed, and reads `bytes`. */
  ghost predicate Settled(s: State, i: nat, n: Node, bytes: seq<u8>) {
    && i < MAX_NODES && s.mount.Loaded? && s.mount.fs.nodes[i] == Some(n) && s.saved.nodes[i] == Some(n)
    && Readable(s.disk, n) && Content(s.disk, n) == bytes
  }

  /** No action of the run aims at node `i`. */
  ghost predicate Avoids(s: State, acts: seq<Action>, i: nat)
    requires Sound(s) && CanRun(s, acts) && i < MAX_NODES
    decreases |acts|
  {
    hide InStep, CanTake, Take;
    acts == [] ||
    (s.mount.fs.nodes[i].Some? && !Hits(s.mount.fs, acts[0].op, i) && Avoids(Take(s, acts[0]), acts[1..], i))
  }

  lemma TakeSettled(s: State, a: Action, i: nat, n: Node, bytes: seq<u8>)
    requires Sound(s) && CanTake(s, a) && Settled(s, i, n, bytes) && !Hits(s.mount.fs, a.op, i)
    ensures Settled(Take(s, a), i, n, bytes)
  {
    hide FsOk, Stands, Publishable, Mutate, Mounted, Expand, ApplyFirst, Permitted, CommitWrites, SuperOf, ImageOf,
         DataFits, Content, Readable, Hits, Load, WriteFits;
    var fs := s.mount.fs;
    OpWrites(fs, s.disk, a.op);
    match a
    case Call(op) =>
      CutKeeps(fs, s.disk, op, i, |Exec(fs, s.disk, op).writes|);
    case CrashIn(op, k) =>
      CutKeeps(fs, s.disk, op, i, k);
      CrashAnywhere(s.disk, fs, s.saved, op, k);
  }

  lemma {:induction false} RunSettled(s: State, acts: seq<Action>, i: nat, n: Node, bytes: seq<u8>)
    requires Sound(s) && CanRun(s, acts) && Settled(s, i, n, bytes) && Avoids(s, acts, i)
    ensures Settled(After(s, acts), i, n, bytes)
    decreases |acts|
  {
    hide InStep, CanTake, Take, Settled, Hits;
    if acts != [] {
      TakeSettled(s, acts[0], i, n, bytes);
      RunSettled(Take(s, acts[0]), acts[1..], i, n, bytes);
    }
  }

  /** Right after a mount or a commit, memory and the committed metadata have the
      same nodes. */
  lemma CommitSettles(s: State, a: Action)
    requires Sound(s) && CanTake(s, a)
    requires Mounted(s.mount.fs, s.disk) && (a.CrashIn? || Commits(Mutate(s.mount.fs, s.disk, a.op)))
    ensures Take(s, a).mount.fs.nodes == Take(s, a).saved.nodes
  {
    hide FsOk, Stands, Publishable, Mutate, Mounted, Expand, ApplyFirst, Permitted, CommitWrites, SuperOf, ImageOf,
         DataFits, Load, WriteFits;
    OpWrites(s.mount.fs, s.disk, a.op);
    if a.CrashIn? {
      CrashAnywhere(s.disk, s.mount.fs, s.saved, a.op, a.k);
    }
  }

  /** A file whose entry is committed reads the same at its path after any
      further run of calls and crashes, each cut at any block write, as long as
      none of them aims at it. */
  lemma EveryHistoryKeeps(disk: Disk, g: Geometry, before: seq<Action>, acts: seq<Action>, i: nat)
    requires GeomOk(g) && |disk| == g.totalBlocks && CanRun(Formatted(disk, g), before)
    requires CanRun(After(Formatted(disk, g), before), acts) && i < MAX_NODES
    requires var s := After(Formatted(disk, g), before);
      s.mount.fs.nodes[i].Some? && s.saved.nodes[i] == s.mount.fs.nodes[i] && Avoids(s, acts, i)
    ensures var s := After(Formatted(disk, g), before);
      var s', p := After(s, acts), s.mount.fs.nodes[i].value.path;
      && AllReadable(s.mount.fs.nodes, s.disk) && AllReadable(s'.mount.fs.nodes, s'.disk)
      && Lookup(s.mount.fs.nodes, s.disk, p).Some?
      && Lookup(s'.mount.fs.nodes, s'.disk, p) == Lookup(s.mount.fs.nodes, s.disk, p)
  {
    hide Formatted, After, CanRun, Avoids, Content, Readable, Lookup, NodesOk, AllocOk, UsedFits, HandlesOk, Stands,
         Publishable;
    var s := After(Formatted(disk, g), before);
    var s', n := After(s, acts), s.mount.fs.nodes[i].value;
    OkReadable(s.mount.fs, s.disk);
    OkReadable(s'.mount.fs, s'.disk);
    RunSettled(s, acts, i, n, Content(s.disk, n));
    LookupAt(s.mount.fs.nodes, s.disk, i);
    LookupAt(s'.mount.fs.nodes, s'.disk, i);
  }

  /** At every point of every history, a call acts on the document at every path
      as `Becomes` says when it succeeds and as `Survives` says when it fails. */
  lemma EveryCallRefines(disk: Disk, g: Geometry, acts: seq<Action>, op: Op, p: Path)
    requires GeomOk(g) && |disk| == g.totalBlocks && CanRun(Formatted(disk, g), acts)
    requires CanTake(After(Formatted(disk, g), acts), Call(op))
    ensures var s := After(Formatted(disk, g), acts);
      var s' := Take(s, Call(op));
      && Mounted(s.mount.fs, s.disk)
      && AllReadable(s.mount.fs.nodes, s.disk) && AllReadable(s'.mount.fs.nodes, s'.disk)
      && var before, after := Lookup(s.mount.fs.nodes, s.disk, p), Lookup(s'.mount.fs.nodes, s'.disk, p);
         var r := Mutate(s.mount.fs, s.disk, op).result;
         if r.Ok? then Becomes(s.mount.fs, s.disk, op, p, after, r.data) else Survives(s.mount.fs, op, p, before, after)
  {
    hide Formatted, After, CanRun, Becomes, Survives, Lookup, AllReadable, Mutate, Stands, Publishable, Permitted,
         Apply, Expand, CommitWrites, DataFits, WriteFits;
    OperationRefines(After(Formatted(disk, g), acts).mount.fs, After(Formatted(disk, g), acts).disk, op, p);
  }
}
