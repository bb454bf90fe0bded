/** What every call answers, decided by the documents and handles before it: when
    it succeeds, which error it gives otherwise, and where it leaves handles. */
module FsAnswers {
  import opened Bytes
  import opened FsFormat
  import opened FsNode
  import opened FsAlloc
  import opened FsTree
  import opened FsOps
  import opened FsSpace
  import opened FsInv
  import opened FsStep
  import opened FsRuns
  import opened FsView
  import opened FsRefine
  import opened FsHistory

  // ---- paths -----------------------------------------------------------------------------------

  ghost predicate Slashes(p: Path, lo: nat, hi: nat) { forall j | lo <= j < hi && j < |p| :: p[j] == SLASH }

  /** `p` is `c` from position `a` on, with slashes around it. */
  ghost predicate Trimmed(p: Path, c: Path, a: nat) {
    a + |c| <= |p| && p[a..a + |c|] == c && Slashes(p, 0, a) && Slashes(p, a + |c|, |p|)
  }

  /** Cleaning takes off the slashes at both ends and nothing else. */
  lemma CleanIff(p: Path, c: Path)
    ensures Clean(p) == c <==> (c == [] || IsClean(c)) && exists a: nat :: Trimmed(p, c, a)
  {
    var a := SkipSlashes(p, 0);
    var b := DropSlashes(p, a, |p|);
    if Clean(p) == c {
      CleanIsClean(p);
      assert Trimmed(p, c, a);
    }
    if x: nat :| (c == [] || IsClean(c)) && Trimmed(p, c, x) {
      TrimmedIs(p, c, x);
    }
  }

  lemma TrimmedIs(p: Path, c: Path, x: nat)
    requires (c == [] || IsClean(c)) && Trimmed(p, c, x)
    ensures Clean(p) == c
  {
    var a := SkipSlashes(p, 0);
    var b := DropSlashes(p, a, |p|);
    if c == [] {
      assert Slashes(p, 0, |p|);
      assert a == |p|;
    } else {
      assert p[x] == c[0] && p[x + |c| - 1] == c[|c| - 1];
      assert a == x && b == x + |c|;
    }
  }

  /** A path without a slash, or one whose part before the last slash, with the
      slashes that end it taken off, is a directory. */
  ghost predicate InDirectory(nodes: Nodes, disk: Disk, p: Path)
    requires AllReadable(nodes, disk)
  {
    forall m: nat, k: nat | ParentAt(p, m, k) :: IsDir(nodes, disk, p[..m])
  }

  ghost predicate IsDir(nodes: Nodes, disk: Disk, p: Path)
    requires AllReadable(nodes, disk)
  {
    Lookup(nodes, disk, p).Some? && Lookup(nodes, disk, p).value.fileType == Directory
  }

  lemma InDirectoryIs(nodes: Nodes, disk: Disk, p: Path)
    requires AllReadable(nodes, disk) && IsClean(p)
    ensures ParentExists(nodes, p) <==> InDirectory(nodes, disk, p)
  {
    hide Parent, Content, Readable;
    if SLASH in p {
      var m, k := ParentShape(p);
      forall m': nat, k': nat | ParentAt(p, m', k')
        ensures p[..m'] == p[..m]
      {
        ParentUnique(p, m', k');
      }
    } else {
      NoSlash(p);
      forall m: nat, k: nat
        ensures !ParentAt(p, m, k)
      {
        if k < |p| {
          assert p[k] in p;
        }
      }
    }
  }

  lemma NoSlash(p: Path)
    requires SLASH !in p
    ensures Parent(p) == None
  {
  }

  // ---- answers ------------------------------------------------------------------------------------

  /** The file a handle is open on, and the handle. */
  ghost function Opened(fs: Fs, handle: nat): (h: Option<Handle>) {
    match FindHandle(fs.handles, handle, 0) case None => None case Some(k) => Some(fs.handles[k])
  }

  /** What a call answers. */
  ghost function Answer(fs: Fs, disk: Disk, op: Op): Outcome
    requires Mounted(fs, disk) && AllReadable(fs.nodes, disk)
  {
    DeriveBounds(fs.geom);
    match op
    case Create(path, _, _) =>
      var p := Clean(path);
      if fs.readOnly then Err(PermissionDenied)
      else if !(1 <= |p| <= 120) || !InDirectory(fs.nodes, disk, p) then Err(InvalidPath)
      else if Lookup(fs.nodes, disk, p).Some? then Err(AlreadyExists)
      else if forall i | 0 <= i < 64 :: fs.nodes[i].Some? then Err(IoError)
      else Ok(0, [])
    case Remove(path) =>
      if fs.readOnly then Err(PermissionDenied) else OnFile(Lookup(fs.nodes, disk, Clean(path)), Ok(0, []))
    case Truncate(path, _) =>
      if fs.readOnly then Err(PermissionDenied) else OnFile(Lookup(fs.nodes, disk, Clean(path)), Ok(0, []))
    case OpenNode(path, _) => OnFile(Lookup(fs.nodes, disk, Clean(path)), Ok(fs.nextHandle, []))
    case Rename(source, target, _) =>
      var src, dst := Clean(source), Clean(target);
      if fs.readOnly then Err(PermissionDenied)
      else if Lookup(fs.nodes, disk, src).None? then Err(NotFound)
      else if !(1 <= |dst| <= 120) then Err(InvalidPath)
      else if Lookup(fs.nodes, disk, dst).Some? then Err(AlreadyExists)
      else if !InDirectory(fs.nodes, disk, dst) then Err(InvalidPath)
      else if IsDir(fs.nodes, disk, src) && !(forall q | Under(q, src) && Lookup(fs.nodes, disk, q).Some? ::
                                                |q| - |src| + |dst| <= 120) then Err(InvalidPath)
      else Ok(0, [])
    case Read(handle, len) =>
      var h := Opened(fs, handle);
      if h.None? then Err(InvalidDescriptor)
      else if !h.value.flags.read then Err(PermissionDenied)
      else
        var out := Slice(Content(disk, fs.nodes[h.value.node].value), h.value.offset, len);
        Ok(|out|, out)
    case WriteTo(handle, data, _) =>
      var h := Opened(fs, handle);
      if h.None? then Err(InvalidDescriptor)
      else if !h.value.flags.write || fs.readOnly then Err(PermissionDenied)
      else
        var end := Start(fs, h.value) + |data|;
        if end >= 0x1_0000_0000_0000_0000 || CeilDiv(end, 512) > Reach(fs, h.value.node) then Err(IoError)
        else Ok(|data|, [])
    case Seek(handle, offset, whence) =>
      var h := Opened(fs, handle);
      if h.None? then Err(InvalidDescriptor)
      else if whence > 2 then Err(InvalidPath)
      else
        var at := Base(fs, h.value, whence) + offset;
        if at < 0 || at >= 0x8000_0000_0000_0000 then Err(InvalidPath) else Ok(at, [])
    case Fsync(handle) => Synced(fs, handle)
    case Close(handle) => Synced(fs, handle)
    case Ftruncate(handle, target, _) =>
      var h := Opened(fs, handle);
      if fs.readOnly then Err(PermissionDenied)
      else if h.None? then Err(InvalidDescriptor)
      else if !h.value.flags.write then Err(PermissionDenied)
      else
        var size := fs.nodes[h.value.node].value.size;
        if target < size then if ShrinkFits(fs, h.value.node, target) then Ok(0, []) else Err(IoError)
        else if target == size || CeilDiv(target, 512) <= Reach(fs, h.value.node) then Ok(0, [])
        else Err(IoError)
  }

  ghost function OnFile(doc: Option<Doc>, r: Outcome): Outcome {
    if doc.None? then Err(NotFound) else if doc.value.fileType != File then Err(IsADirectory) else r
  }

  /** Where a write through a handle starts. */
  ghost function Start(fs: Fs, h: Handle): nat
    requires h.node < MAX_NODES && fs.nodes[h.node].Some?
  {
    if h.flags.append then fs.nodes[h.node].value.size else h.offset
  }

  /** What a seek counts from: the start, the handle or the end of the file, the
      latter two as signed 64-bit numbers. */
  ghost function Base(fs: Fs, h: Handle, whence: nat): int
    requires h.node < MAX_NODES && fs.nodes[h.node].Some?
  {
    var x := if whence == 0 then 0 else if whence == 1 then h.offset else fs.nodes[h.node].value.size;
    if x % 0x1_0000_0000_0000_0000 < 0x8000_0000_0000_0000 then x % 0x1_0000_0000_0000_0000
    else x % 0x1_0000_0000_0000_0000 - 0x1_0000_0000_0000_0000
  }

  ghost function Synced(fs: Fs, handle: nat): Outcome {
    if Opened(fs, handle).None? then Err(InvalidDescriptor)
    else if fs.dirty && fs.readOnly then Err(PermissionDenied)
    else Ok(0, [])
  }

  lemma LookupIs(nodes: Nodes, disk: Disk, p: Path)
    requires AllReadable(nodes, disk)
    ensures var r := FindPath(nodes, p, 0);
      && (Lookup(nodes, disk, p).Some? <==> r.Some?)
      && (r.Some? ==> Lookup(nodes, disk, p).value.fileType == nodes[r.value].value.fileType)
  {
  }

  /** The answer once the commit has had its say. */
  ghost function Final(m: Mutation): Outcome {
    if m.publish && m.fs.dirty && m.fs.readOnly then Err(PermissionDenied) else m.result
  }

  /** A call on paths. */
  predicate OnPath(op: Op) { op.Create? || op.Remove? || op.Truncate? || op.OpenNode? || op.Rename? }

  lemma PathAnswer(fs: Fs, disk: Disk, op: Op)
    requires Mounted(fs, disk) && AllReadable(fs.nodes, disk) && OnPath(op)
    ensures Final(Mutate(fs, disk, op)) == Answer(fs, disk, op)
  {
    hide NodesOk, AllocOk, UsedFits, TreeOk, HandlesOk, Content, Readable, Lookup, Clean, InDirectory, DropNode,
         ReleaseExtents, CheckRename, RenamedNodes, DoCreate;
    match op
    case Create(path, directory, now) => CreateAnswer(fs, disk, path, directory, now);
    case Remove(path) => LookupIs(fs.nodes, disk, Clean(path));
    case Truncate(path, _) => LookupIs(fs.nodes, disk, Clean(path));
    case OpenNode(path, _) => LookupIs(fs.nodes, disk, Clean(path));
    case Rename(source, target, _) => CheckAnswer(fs, disk, Clean(source), Clean(target)); CleanIsClean(target);
  }

  lemma CreateAnswer(fs: Fs, disk: Disk, path: Path, directory: bool, now: u64)
    requires Mounted(fs, disk) && AllReadable(fs.nodes, disk)
    ensures Final(DoCreate(fs, path, directory, now)) == Answer(fs, disk, Create(path, directory, now))
  {
    hide NodesOk, AllocOk, UsedFits, TreeOk, HandlesOk, Content, Readable, Lookup, Clean, ParentExists, InDirectory;
    LookupIs(fs.nodes, disk, Clean(path));
    CleanIsClean(path);
    if Clean(path) != [] {
      InDirectoryIs(fs.nodes, disk, Clean(path));
    }
  }

  /** The guards of rename, over documents. */
  lemma CheckAnswer(fs: Fs, disk: Disk, src: Path, dst: Path)
    requires AllReadable(fs.nodes, disk)
    ensures dst == [] || IsClean(dst) ==>
      var r := CheckRename(fs.nodes, src, dst);
      && (r.Missing? <==> Lookup(fs.nodes, disk, src).None?)
      && (!r.Missing? ==>
            r ==
              if !(1 <= |dst| <= 120) then BadName
              else if Lookup(fs.nodes, disk, dst).Some? then Exists
              else if !InDirectory(fs.nodes, disk, dst) then NoParent
              else if IsDir(fs.nodes, disk, src) && !(forall q | Under(q, src) && Lookup(fs.nodes, disk, q).Some? ::
                                                        |q| - |src| + |dst| <= 120) then TooLong
              else Allowed(FindPath(fs.nodes, src, 0).value))
  {
    hide NodesOk, AllocOk, UsedFits, TreeOk, HandlesOk, Content, Readable, Lookup, ParentExists, InDirectory, MovesFit;
    LookupIs(fs.nodes, disk, src);
    LookupIs(fs.nodes, disk, dst);
    if dst != [] && IsClean(dst) {
      InDirectoryIs(fs.nodes, disk, dst);
    }
    FitIs(fs.nodes, disk, src, dst);
  }

  lemma FitIs(nodes: Nodes, disk: Disk, src: Path, dst: Path)
    requires AllReadable(nodes, disk)
    ensures MovesFit(nodes, src, dst) <==>
      forall q | Under(q, src) && Lookup(nodes, disk, q).Some? :: |q| - |src| + |dst| <= PATH_SIZE
  {
    hide Content, Readable, Lookup;
    forall q
      ensures Lookup(nodes, disk, q).Some? <==>
        exists i :: 0 <= i < MAX_NODES && nodes[i].Some? && nodes[i].value.path == q
    {
      LookupIs(nodes, disk, q);
    }
    if MovesFit(nodes, src, dst) {
      forall q | Under(q, src) && Lookup(nodes, disk, q).Some?
        ensures |q| - |src| + |dst| <= PATH_SIZE
      {
        var i :| 0 <= i < MAX_NODES && nodes[i].Some? && nodes[i].value.path == q;
        assert |Moved(q, src, dst)| <= PATH_SIZE;
        UnderSlash(q, src);
      }
    }
    if forall q | Under(q, src) && Lookup(nodes, disk, q).Some? :: |q| - |src| + |dst| <= PATH_SIZE {
      forall i | 0 <= i < MAX_NODES && nodes[i].Some? && src + [SLASH] <= nodes[i].value.path
        ensures |Moved(nodes[i].value.path, src, dst)| <= PATH_SIZE
      {
        assert Under(nodes[i].value.path, src);
        UnderSlash(nodes[i].value.path, src);
      }
    }
  }

  lemma HandleAnswer(fs: Fs, disk: Disk, op: Op)
    requires Mounted(fs, disk) && AllReadable(fs.nodes, disk) && !OnPath(op)
    ensures Final(Mutate(fs, disk, op)) == Answer(fs, disk, op)
  {
    hide NodesOk, AllocOk, UsedFits, TreeOk, Content, Readable, Resize, WriteNode, ShrinkFits, Reach;
    match op
    case WriteTo(handle, data, now) =>
      var h := Opened(fs, handle);
      if h.Some? {
        MountedCanWrite(fs, disk, h.value.node);
        WriteAnswer(fs, h.value.node, Start(fs, h.value), data, now);
      }
    case Ftruncate(handle, target, now) =>
      var h := Opened(fs, handle);
      if h.Some? {
        MountedCanWrite(fs, disk, h.value.node);
        if !fs.readOnly {
          ResizeAnswer(fs, disk, h.value.node, target, now);
        }
      }
    case _ =>
  }

  lemma WriteAnswer(fs: Fs, i: nat, offset: nat, input: seq<u8>, now: u64)
    requires CanWrite(fs, i)
    ensures !WriteNode(fs, i, offset, input, now).publish
    ensures WriteNode(fs, i, offset, input, now).fs.readOnly == fs.readOnly
    ensures WriteNode(fs, i, offset, input, now).result ==
      if fs.readOnly then Err(PermissionDenied)
      else if offset + |input| >= 0x1_0000_0000_0000_0000 || CeilDiv(offset + |input|, BLOCK_SIZE) > Reach(fs, i)
      then Err(IoError) else Ok(|input|, [])
  {
    hide Reach, EnsureBlocks;
    WriteIff(fs, i, offset, input, now);
  }

  lemma MountedCanWrite(fs: Fs, disk: Disk, i: nat)
    requires Mounted(fs, disk) && i < MAX_NODES && fs.nodes[i].Some?
    ensures CanWrite(fs, i) && Readable(disk, fs.nodes[i].value)
    ensures CeilDiv(fs.nodes[i].value.size, BLOCK_SIZE) <= Reach(fs, i)
  {
    DeriveBounds(fs.geom);
    assert NodeOk(fs.geom, fs.nodes[i].value);
    NodeReadable(fs.geom, disk, fs.nodes[i].value);
  }

  lemma ResizeAnswer(fs: Fs, disk: Disk, i: nat, target: u64, now: u64)
    requires CanWrite(fs, i) && !fs.readOnly && Readable(disk, fs.nodes[i].value)
    requires CeilDiv(fs.nodes[i].value.size, BLOCK_SIZE) <= Reach(fs, i)
    ensures fs.geom.dataStart <= fs.geom.totalBlocks
    ensures var size := fs.nodes[i].value.size;
      var m := Resize(fs, disk, i, target, now);
      && !m.fs.readOnly
      && m.result ==
           if target < size then if ShrinkFits(fs, i, target) then DONE else Err(IoError)
           else if target == size || CeilDiv(target, BLOCK_SIZE) <= Reach(fs, i) then DONE
           else Err(IoError)
  {
    hide UsedFits, Content, Readable, ShrinkFits, Reach, ZeroExtend, Shrink;
    DeriveBounds(fs.geom);
    var n := fs.nodes[i].value;
    if target < n.size {
      ShrinkAnswer(fs, i, ReadBytes(disk, n, 0, target), now);
    } else if target > n.size {
      ExtendIff(fs, i, target - n.size, now);
      ExtendAnswer(fs, i, n.size, target - n.size, now);
    }
  }

  lemma ShrinkAnswer(fs: Fs, i: nat, keep: seq<u8>, now: u64)
    requires CanWrite(fs, i) && !fs.readOnly && |keep| < 0x1_0000_0000_0000_0000
    ensures fs.geom.dataStart <= fs.geom.totalBlocks
    ensures var m := Shrink(fs, i, keep, now);
      m.result == (if ShrinkFits(fs, i, |keep|) then DONE else Err(IoError)) && !m.fs.readOnly
  {
    hide EnsureBlocks, FreeRuns, UsedFits;
    DeriveBounds(fs.geom);
    ReleaseFits(fs.geom, fs.used, fs.nodes[i].value.extents);
    if keep != [] {
      WriteAnswer(Release(fs, i), i, 0, keep, now);
      assert Allocated([]) == 0;
    }
  }

  lemma {:induction false} ExtendAnswer(fs: Fs, i: nat, offset: nat, remaining: nat, now: u64)
    requires CanWrite(fs, i) && !fs.readOnly && offset + remaining < 0x1_0000_0000_0000_0000
    ensures var m := ZeroExtend(fs, i, offset, remaining, now); m.result in {DONE, Err(IoError)} && !m.fs.readOnly
    decreases remaining
  {
    hide EnsureBlocks, CanWrite;
    if remaining > 0 {
      var chunk := Min(remaining, BLOCK_SIZE);
      WriteKeepsCanWrite(fs, i, offset, Zeros(chunk), now);
      var m := WriteNode(fs, i, offset, Zeros(chunk), now);
      if m.result.Ok? {
        ExtendAnswer(m.fs, i, offset + chunk, remaining - chunk, now);
      }
    }
  }

  /** Every call answers as the table says. */
  lemma AnswerIff(fs: Fs, disk: Disk, op: Op)
    requires Mounted(fs, disk) && AllReadable(fs.nodes, disk) && CanFinish(disk, Mutate(fs, disk, op))
    ensures Exec(fs, disk, op).result == Answer(fs, disk, op)
  {
    hide FsOk, Answer, Mounted, Expand, CommitWrites, CanFinish;
    if OnPath(op) {
      PathAnswer(fs, disk, op);
    } else {
      HandleAnswer(fs, disk, op);
    }
  }

  ghost predicate Answers(fs: Fs, disk: Disk, op: Op, r: Outcome) {
    Mounted(fs, disk) && AllReadable(fs.nodes, disk) && r == Answer(fs, disk, op)
  }

  lemma MountedAnswers(fs: Fs, disk: Disk, op: Op)
    requires Mounted(fs, disk) && CanFinish(disk, Mutate(fs, disk, op))
    ensures Answers(fs, disk, op, Exec(fs, disk, op).result)
  {
    hide Mounted, CanFinish, Mutate, Exec, Answer, Readable, CanWrite, Reach;
    forall i | 0 <= i < MAX_NODES && fs.nodes[i].Some?
      ensures Readable(disk, fs.nodes[i].value)
    {
      MountedCanWrite(fs, disk, i);
    }
    AnswerIff(fs, disk, op);
  }

  /** In every history, every call answers as the table says. */
  lemma EveryAnswer(disk: Disk, g: Geometry, acts: seq<Action>, op: Op)
    requires GeomOk(g) && |disk| == g.totalBlocks && CanRun(Formatted(disk, g), acts)
    requires CanTake(After(Formatted(disk, g), acts), Call(op))
    ensures var s := After(Formatted(disk, g), acts);
      && Mounted(s.mount.fs, s.disk) && CanFinish(s.disk, Mutate(s.mount.fs, s.disk, op))
      && AllReadable(s.mount.fs.nodes, s.disk)
      && Exec(s.mount.fs, s.disk, op).result == Answer(s.mount.fs, s.disk, op)
  {
    hide Formatted, After, CanRun, Answer, Mutate, Publishable, Permitted, Expand, CommitWrites, DataFits, WriteFits,
         Exec, CanFinish, Mounted, FsOk;
    var s := After(Formatted(disk, g), acts);
    OpWrites(s.mount.fs, s.disk, op);
    OkReadable(s.mount.fs, s.disk);
    AnswerIff(s.mount.fs, s.disk, op);
  }

  // ---- handles ------------------------------------------------------------------------------------

  /** The handles with one of them moved. */
  ghost function AtOffset(fs: Fs, handle: nat, at: nat): seq<Handle> {
    match FindHandle(fs.handles, handle, 0)
    case None => fs.handles
    case Some(k) => fs.handles[k := fs.handles[k].(offset := at)]
  }

  /** Where a call that answers `r` leaves the handles: reads and writes move their
      own past the bytes, a seek sets it, open adds one at the start or, for
      appending, at the end, close takes one away, remove those of the file. */
  ghost predicate Handled(fs: Fs, op: Op, r: Outcome, hs: seq<Handle>)
    requires HandlesOk(fs)
  {
    match op
    case OpenNode(path, flags) =>
      (r.Err? ==> hs == fs.handles)
      && (r.Ok? ==>
            var i := FindPath(fs.nodes, Clean(path), 0);
            && i.Some?
            && var at := if flags.append then fs.nodes[i.value].value.size else 0;
               hs == fs.handles + [Handle(r.value, i.value, at, flags)])
    case Read(handle, _) =>
      hs == if r.Ok? && Opened(fs, handle).Some? then AtOffset(fs, handle, Opened(fs, handle).value.offset + r.value)
            else fs.handles
    case WriteTo(handle, data, _) =>
      hs == if r.Ok? && Opened(fs, handle).Some? then AtOffset(fs, handle, Start(fs, Opened(fs, handle).value) + |data|)
            else fs.handles
    case Seek(handle, _, _) => hs == if r.Ok? then AtOffset(fs, handle, r.value) else fs.handles
    case Close(handle) =>
      var k := FindHandle(fs.handles, handle, 0);
      hs == if k.Some? then fs.handles[..k.value] + fs.handles[k.value + 1..] else fs.handles
    case Remove(path) =>
      if r.Err? then hs == fs.handles
      else forall h :: h in hs <==> h in fs.handles && fs.nodes[h.node].value.path != Clean(path)
    case _ => hs == fs.handles
  }

  /** Every call leaves them so. */
  lemma HandlesIff(fs: Fs, disk: Disk, op: Op)
    requires Mounted(fs, disk) && AllReadable(fs.nodes, disk) && CanFinish(disk, Mutate(fs, disk, op))
    requires UniquePaths(fs.nodes)
    ensures Handled(fs, op, Exec(fs, disk, op).result, Exec(fs, disk, op).fs.handles)
  {
    hide Mounted, Mutate, Handled, Expand, CommitWrites, CanFinish, AllReadable, UniquePaths;
    if OnPath(op) {
      PathHandles(fs, disk, op);
    } else {
      HandleHandles(fs, disk, op);
    }
  }

  lemma PathHandles(fs: Fs, disk: Disk, op: Op)
    requires Mounted(fs, disk) && AllReadable(fs.nodes, disk) && OnPath(op) && UniquePaths(fs.nodes)
    ensures Handled(fs, op, Final(Mutate(fs, disk, op)), Mutate(fs, disk, op).fs.handles)
  {
    hide NodesOk, UsedFits, Content, Readable, Clean, CheckRename, RenamedNodes, ParentExists, ReleaseExtents;
    if op.Remove? {
      var i := NodeIndex(fs.nodes, op.path);
      if i.Some? {
        forall h | h in fs.handles
          ensures h.node == i.value <==> fs.nodes[h.node].value.path == Clean(op.path)
        {
        }
      }
    }
  }

  lemma HandleHandles(fs: Fs, disk: Disk, op: Op)
    requires Mounted(fs, disk) && AllReadable(fs.nodes, disk) && !OnPath(op)
    ensures Handled(fs, op, Final(Mutate(fs, disk, op)), Mutate(fs, disk, op).fs.handles)
  {
    hide NodesOk, UsedFits, Content, Readable, ReadBytes, DoWrite, DoFtruncate;
    match op
    case WriteTo(handle, data, now) => WriteHandled(fs, disk, handle, data, now);
    case Ftruncate(handle, target, now) => ResizeHandled(fs, disk, handle, target, now);
    case _ =>
  }

  lemma WriteHandled(fs: Fs, disk: Disk, handle: nat, data: seq<u8>, now: u64)
    requires Mounted(fs, disk)
    ensures var m := DoWrite(fs, handle, data, now); Handled(fs, WriteTo(handle, data, now), Final(m), m.fs.handles)
  {
    hide NodesOk, UsedFits, WriteNode, CanWrite;
    var h := Opened(fs, handle);
    if h.Some? {
      MountedCanWrite(fs, disk, h.value.node);
      WriteAnswer(fs, h.value.node, Start(fs, h.value), data, now);
      WriteHandles(fs, h.value.node, Start(fs, h.value), data, now);
    }
  }

  lemma ResizeHandled(fs: Fs, disk: Disk, handle: nat, target: u64, now: u64)
    requires Mounted(fs, disk)
    ensures DoFtruncate(fs, disk, handle, target, now).fs.handles == fs.handles
  {
    hide NodesOk, UsedFits, Resize, Readable, CanWrite;
    var h := Opened(fs, handle);
    if h.Some? {
      MountedCanWrite(fs, disk, h.value.node);
      ResizeHandles(fs, disk, h.value.node, target, now);
    }
  }

  lemma WriteHandles(fs: Fs, i: nat, offset: nat, input: seq<u8>, now: u64)
    requires CanWrite(fs, i)
    ensures WriteNode(fs, i, offset, input, now).fs.handles == fs.handles
  {
    hide EnsureBlocks;
  }

  lemma ResizeHandles(fs: Fs, disk: Disk, i: nat, target: u64, now: u64)
    requires CanWrite(fs, i) && Readable(disk, fs.nodes[i].value)
    ensures Resize(fs, disk, i, target, now).fs.handles == fs.handles
  {
    hide ReadBytes, ZeroExtend, EnsureBlocks;
    ReleaseFits(fs.geom, fs.used, fs.nodes[i].value.extents);
    if fs.nodes[i].value.size < target {
      ExtendHandles(fs, i, fs.nodes[i].value.size, target - fs.nodes[i].value.size, now);
    }
  }

  lemma {:induction false} ExtendHandles(fs: Fs, i: nat, offset: nat, remaining: nat, now: u64)
    requires CanWrite(fs, i)
    ensures ZeroExtend(fs, i, offset, remaining, now).fs.handles == fs.handles
    decreases remaining
  {
    hide CanWrite, WriteNode;
    if remaining > 0 {
      var chunk := Min(remaining, BLOCK_SIZE);
      WriteKeepsCanWrite(fs, i, offset, Zeros(chunk), now);
      WriteHandles(fs, i, offset, Zeros(chunk), now);
      var m := WriteNode(fs, i, offset, Zeros(chunk), now);
      if m.result.Ok? {
        ExtendHandles(m.fs, i, offset + chunk, remaining - chunk, now);
      }
    }
  }

  lemma ReadIs(fs: Fs, disk: Disk, handle: nat, len: nat)
    requires Mounted(fs, disk) && AllReadable(fs.nodes, disk)
    requires Opened(fs, handle).Some? && Opened(fs, handle).value.flags.read
    ensures var h := Opened(fs, handle).value;
      var out := Slice(Content(disk, fs.nodes[h.node].value), h.offset, len);
      var m := DoRead(fs, disk, handle, len);
      m.result == Ok(|out|, out) && m.fs == fs.(handles := AtOffset(fs, handle, h.offset + |out|))
  {
    hide NodesOk, UsedFits, Content, Readable;
  }

  lemma SliceOn(s: seq<u8>, at: nat, a: nat, b: nat)
    ensures var first := Slice(s, at, a);
      first + Slice(s, at + |first|, b) == Slice(s, at, |first| + b)
  {
  }

  /** Two reads in a row give consecutive slices of the file. */
  lemma ReadsContinue(fs: Fs, disk: Disk, handle: nat, a: nat, b: nat)
    requires Mounted(fs, disk) && AllReadable(fs.nodes, disk)
    requires Opened(fs, handle).Some? && Opened(fs, handle).value.flags.read
    ensures var h := Opened(fs, handle).value;
      var first := DoRead(fs, disk, handle, a);
      && Mounted(first.fs, disk) && first.result.Ok?
      && var second := DoRead(first.fs, disk, handle, b);
         && second.result.Ok?
         && first.result.data + second.result.data ==
              Slice(Content(disk, fs.nodes[h.node].value), h.offset, |first.result.data| + b)
  {
    hide NodesOk, UsedFits, Content, Readable, DoRead, Slice;
    var k := FindHandle(fs.handles, handle, 0).value;
    var h := fs.handles[k];
    ReadIs(fs, disk, handle, a);
    var first := DoRead(fs, disk, handle, a);
    FindsAgain(fs.handles, k, h.(offset := h.offset + |first.result.data|), handle);
    ReadIs(first.fs, disk, handle, b);
    SliceOn(Content(disk, fs.nodes[h.node].value), h.offset, a, b);
  }

  lemma FindsAgain(hs: seq<Handle>, k: nat, h: Handle, handle: nat)
    requires FindHandle(hs, handle, 0) == Some(k) && k < |hs| && h.id == hs[k].id
    ensures FindHandle(hs[k := h], handle, 0) == Some(k)
  {
    var r := FindHandle(hs[k := h], handle, 0);
    assert hs[k := h][k].id == handle;
  }
}
