/** Every operation, commit included, refines a plain operation on the map from
    paths to byte strings. */
module FsRefine {
  import opened Bytes
  import opened FsFormat
  import opened FsNode
  import opened FsAlloc
  import opened FsTree
  import opened FsOps
  import opened FsInv
  import opened FsData
  import opened FsStep
  import opened FsRuns
  import opened FsView
  import Utf8

  // ---- lookups ------------------------------------------------------------------------

  lemma LookupAt(nodes: Nodes, disk: Disk, i: nat)
    requires UniquePaths(nodes) && AllReadable(nodes, disk) && i < MAX_NODES && nodes[i].Some?
    ensures Lookup(nodes, disk, nodes[i].value.path) == Some(DocAt(nodes, disk, i))
  {
    FindsAt(nodes, i);
  }

  /** Only what slot `i` holds, before or after, can change. */
  lemma LookupElsewhere(nodes: Nodes, disk: Disk, nodes': Nodes, disk': Disk, i: nat, p: Path)
    requires UniquePaths(nodes) && UniquePaths(nodes') && AllReadable(nodes, disk) && AllReadable(nodes', disk')
    requires i < MAX_NODES && OthersKept(nodes, disk, nodes', disk', i)
    requires nodes[i].Some? ==> nodes[i].value.path != p
    requires nodes'[i].Some? ==> nodes'[i].value.path != p
    ensures Lookup(nodes', disk', p) == Lookup(nodes, disk, p)
  {
    hide Content, Readable;
    var r, r' := FindPath(nodes, p, 0), FindPath(nodes', p, 0);
    if r.Some? {
      assert nodes'[r.value] == nodes[r.value];
      FindsAt(nodes', r.value);
    }
  }

  /** A disk that keeps the data region keeps every document. */
  lemma DataKept(fs: Fs, disk: Disk, disk': Disk)
    requires FsOk(fs) && |disk| == |disk'| == fs.geom.totalBlocks
    requires forall b | fs.geom.dataStart <= b < fs.geom.totalBlocks :: disk'[b] == disk[b]
    ensures AllReadable(fs.nodes, disk) && AllReadable(fs.nodes, disk')
    ensures forall i | 0 <= i < MAX_NODES && fs.nodes[i].Some? ::
      Content(disk', fs.nodes[i].value) == Content(disk, fs.nodes[i].value)
  {
    OkReadable(fs, disk);
    OkReadable(fs, disk');
    forall i | 0 <= i < MAX_NODES && fs.nodes[i].Some?
      ensures Content(disk', fs.nodes[i].value) == Content(disk, fs.nodes[i].value)
    {
      assert NodeOk(fs.geom, fs.nodes[i].value);
      SameData(fs.geom, disk, disk', fs.nodes[i].value);
    }
  }

  lemma SameData(g: Geometry, disk: Disk, disk': Disk, n: Node)
    requires NodeOk(g, n) && |disk| == |disk'| == g.totalBlocks && Readable(disk, n) && Readable(disk', n)
    requires forall b | g.dataStart <= b < g.totalBlocks :: disk'[b] == disk[b]
    ensures Content(disk', n) == Content(disk, n)
  {
    forall p | 0 <= p < n.size
      ensures Content(disk', n)[p] == Content(disk, n)[p]
    {
      BlocksInData(g, n.extents, Blocks(n.extents)[p / BLOCK_SIZE]);
    }
  }

  lemma CommitKeepsData(fs: Fs, disk: Disk, b: nat)
    requires FsOk(fs) && |disk| == fs.geom.totalBlocks && fs.geom.dataStart <= b < fs.geom.totalBlocks
    ensures GeomOk(fs.geom) && NodesOk(fs.geom, fs.nodes) && fs.activeSlot <= 1
    ensures Apply(disk, CommitWrites(fs))[b] == disk[b]
  {
    hide EncodeSuper, NextSuper, Image;
    DeriveBounds(fs.geom);
    ApplyFrame(disk, CommitWrites(fs), |CommitWrites(fs)|, b);
  }

  // ---- the operations on paths and strings -----------------------------------------------

  /** `p` with its leading `dst` replaced by `src`: where a document found at `p`
      after a rename of `src` to `dst` was before. */
  ghost function Origin(p: Path, src: Path, dst: Path): Path { if p == dst then src else Moved(p, dst, src) }

  /** What a successful operation makes of the document at `p` (`after`) and
      hands out (`out`), in terms of the documents before. */
  ghost predicate Becomes(fs: Fs, disk: Disk, op: Op, p: Path, after: Option<Doc>, out: seq<u8>)
    requires AllReadable(fs.nodes, disk) && HandlesOk(fs)
  {
    var before := Lookup(fs.nodes, disk, p);
    match op
    case Create(path, directory, _) =>
      if p == Clean(path) then before == None && after == Some(Doc(if directory then Directory else File, []))
      else after == before
    case Remove(path) =>
      if p == Clean(path) then before.Some? && after == None else after == before
    case Truncate(path, _) =>
      if p == Clean(path) then before.Some? && after == Some(Doc(File, [])) else after == before
    case Rename(src, dst, _) =>
      after ==
        if p == Clean(dst) || Under(p, Clean(dst)) then Lookup(fs.nodes, disk, Origin(p, Clean(src), Clean(dst)))
        else if p == Clean(src) || Under(p, Clean(src)) then None
        else before
    case WriteTo(handle, data, _) =>
      var k := FindHandle(fs.handles, handle, 0);
      && k.Some?
      && if p == fs.nodes[fs.handles[k.value].node].value.path then
           && before.Some? && after.Some? && after.value.fileType == File
           && Overlaid(before.value.bytes, after.value.bytes, WriteOffset(fs, fs.handles[k.value]), data)
         else after == before
    case Ftruncate(handle, target, _) =>
      var k := FindHandle(fs.handles, handle, 0);
      && k.Some?
      && if p == fs.nodes[fs.handles[k.value].node].value.path then
           before.Some? && after == Some(Doc(File, Sized(before.value.bytes, target)))
         else after == before
    case Read(handle, len) =>
      var k := FindHandle(fs.handles, handle, 0);
      && k.Some? && after == before
      && (p == fs.nodes[fs.handles[k.value].node].value.path ==>
           before.Some? && out == Slice(before.value.bytes, fs.handles[k.value].offset, len))
    case _ => after == before
  }

  function Slice(s: seq<u8>, offset: nat, len: nat): seq<u8> {
    if offset >= |s| then [] else s[offset..Min(offset + len, |s|)]
  }

  function Sized(s: seq<u8>, target: nat): seq<u8> {
    if target <= |s| then s[..target] else s + Zeros(target - |s|)
  }

  /** What a failed operation makes of it: nothing, except that an extension
      that runs out of space keeps the zeros written so far. */
  ghost predicate Survives(fs: Fs, op: Op, p: Path, before: Option<Doc>, after: Option<Doc>)
    requires HandlesOk(fs)
  {
    if !op.Ftruncate? then after == before
    else
      var k := FindHandle(fs.handles, op.handle, 0);
      if k.Some? && p == fs.nodes[fs.handles[k.value].node].value.path then
        && before.Some? && after.Some? && after.value.fileType == before.value.fileType
        && |before.value.bytes| <= |after.value.bytes|
        && after.value.bytes == before.value.bytes + Zeros(|after.value.bytes| - |before.value.bytes|)
      else after == before
  }

  /** The claim for one operation before its commit. */
  ghost predicate Refined(fs: Fs, disk: Disk, op: Op, m: Mutation, disk': Disk, p: Path)
    requires AllReadable(fs.nodes, disk) && HandlesOk(fs)
  {
    && AllReadable(m.fs.nodes, disk')
    && (m.result.Ok? ==> Becomes(fs, disk, op, p, Lookup(m.fs.nodes, disk', p), m.result.data))
    && (m.result.Err? ==> Survives(fs, op, p, Lookup(fs.nodes, disk, p), Lookup(m.fs.nodes, disk', p)))
  }

  lemma CreateRefines(fs: Fs, disk: Disk, path: Path, directory: bool, now: u64, p: Path)
    requires FsOk(fs) && |disk| == fs.geom.totalBlocks && AllReadable(fs.nodes, disk) && Utf8.Valid(path)
    ensures Refined(fs, disk, Create(path, directory, now), DoCreate(fs, path, directory, now), disk, p)
  {
    hide Readable, Content, Exact, Disjoint, NodesOk, UsedFits, HandlesOk, Clean;
    var m := DoCreate(fs, path, directory, now);
    CreateOk(fs, path, directory, now);
    OkReadable(m.fs, disk);
    if m.result.Ok? {
      var i := FindFree(fs.nodes, 0).value;
      KeptRefl(fs.nodes, disk, m.fs.nodes, i);
      if p == Clean(path) {
        LookupAt(m.fs.nodes, disk, i);
        EmptyContent(disk, m.fs.nodes[i].value);
      } else {
        LookupElsewhere(fs.nodes, disk, m.fs.nodes, disk, i, p);
      }
    }
  }

  lemma RemoveRefines(fs: Fs, disk: Disk, path: Path, p: Path)
    requires FsOk(fs) && |disk| == fs.geom.totalBlocks && AllReadable(fs.nodes, disk)
    ensures Refined(fs, disk, Remove(path), DoRemove(fs, path), disk, p)
  {
    hide Readable, Content, Exact, Disjoint, NodesOk, UsedFits, HandlesOk, Clean;
    var m := DoRemove(fs, path);
    RemoveOk(fs, path);
    OkReadable(m.fs, disk);
    if m.result.Ok? {
      var i := NodeIndex(fs.nodes, path).value;
      KeptRefl(fs.nodes, disk, m.fs.nodes, i);
      if p == Clean(path) {
        assert FindPath(m.fs.nodes, p, 0).None?;
      } else {
        LookupElsewhere(fs.nodes, disk, m.fs.nodes, disk, i, p);
      }
    }
  }

  lemma TruncateRefines(fs: Fs, disk: Disk, path: Path, now: u64, p: Path)
    requires FsOk(fs) && |disk| == fs.geom.totalBlocks && AllReadable(fs.nodes, disk)
    ensures Refined(fs, disk, Truncate(path, now), DoTruncate(fs, path, now), disk, p)
  {
    hide Readable, Content, Exact, Disjoint, NodesOk, UsedFits, HandlesOk, Clean;
    var m := DoTruncate(fs, path, now);
    TruncateOk(fs, path, now);
    OkReadable(m.fs, disk);
    if m.result.Ok? {
      var i := NodeIndex(fs.nodes, path).value;
      KeptRefl(fs.nodes, disk, m.fs.nodes, i);
      if p == Clean(path) {
        LookupAt(m.fs.nodes, disk, i);
        EmptyContent(disk, m.fs.nodes[i].value);
      } else {
        LookupElsewhere(fs.nodes, disk, m.fs.nodes, disk, i, p);
      }
    }
  }

  // ---- rename ----------------------------------------------------------------------------

  lemma MovedBack(p: Path, src: Path, dst: Path)
    requires Under(p, src)
    ensures Under(Moved(p, src, dst), dst) && Moved(Moved(p, src, dst), dst, src) == p
  {
    UnderSlash(p, src);
    var r := Moved(p, src, dst);
    assert r[..|dst| + 1] == dst + [SLASH];
    assert r[|dst| + 1..] == p[|src| + 1..];
    assert p == p[..|src| + 1] + p[|src| + 1..];
  }

  /** A document found at `p` after the rename sat at the origin of `p`. */
  lemma RenamedFrom(nodes: Nodes, index: nat, src: Path, dst: Path, i: nat)
    requires Renaming(nodes, index, src, dst) && i < MAX_NODES && nodes[i].Some?
    ensures var p := NewPath(nodes, index, i, src, dst);
      if p == dst || Under(p, dst) then nodes[i].value.path == Origin(p, src, dst)
      else nodes[i].value.path == p && p != src && !Under(p, src)
  {
    NewPathCases(nodes, index, i, src, dst);
    var q := nodes[i].value.path;
    if i == index {
    } else if nodes[index].value.fileType == Directory && Under(q, src) {
      MovedBack(q, src, dst);
      UnderSlash(Moved(q, src, dst), dst);
    } else {
      if q == src {
        SourceIs(nodes, index, src, dst, i);
      } else if Under(q, src) {
        AncestorExists(nodes, i, src);
      }
    }
  }

  /** A document at `q` before is at its new path after; `q` itself is empty
      then, if it lay at or under the source and not at or under the target. */
  lemma RenamedTo(nodes: Nodes, index: nat, src: Path, dst: Path, i: nat, p: Path)
    requires Renaming(nodes, index, src, dst) && i < MAX_NODES && nodes[i].Some?
    requires if p == dst || Under(p, dst) then nodes[i].value.path == Origin(p, src, dst)
             else nodes[i].value.path == p && p != src && !Under(p, src)
    ensures NewPath(nodes, index, i, src, dst) == p
  {
    NewPathCases(nodes, index, i, src, dst);
    if p == dst {
      SourceIs(nodes, index, src, dst, i);
    } else if Under(p, dst) {
      MovedBack(p, dst, src);
      AncestorExists(nodes, i, src);
      UnderSlash(nodes[i].value.path, src);
    }
  }

  lemma RenamedLookup(nodes: Nodes, disk: Disk, index: nat, src: Path, dst: Path, now: u64, p: Path)
    requires Renaming(nodes, index, src, dst) && AllReadable(nodes, disk)
    ensures var nodes' := RenamedNodes(nodes, index, src, dst, now);
      && AllReadable(nodes', disk)
      && Lookup(nodes', disk, p) ==
           if p == dst || Under(p, dst) then Lookup(nodes, disk, Origin(p, src, dst))
           else if p == src || Under(p, src) then None
           else Lookup(nodes, disk, p)
  {
    hide Readable, Content, TreeOk, CheckRename, Moved, Under;
    var nodes' := RenamedNodes(nodes, index, src, dst, now);
    RenameUnique(nodes, index, src, dst, now);
    SameDocs(nodes, disk, index, src, dst, now);
    var r' := FindPath(nodes', p, 0);
    if r'.Some? {
      RenamedFrom(nodes, index, src, dst, r'.value);
      TreeUnique(nodes);
      LookupAt(nodes, disk, r'.value);
    } else {
      var q := if p == dst || Under(p, dst) then Origin(p, src, dst) else p;
      var r := FindPath(nodes, q, 0);
      if r.Some? && (p == dst || Under(p, dst) || !(p == src || Under(p, src))) {
        RenamedTo(nodes, index, src, dst, r.value, p);
      }
    }
  }

  lemma TreeUnique(nodes: Nodes)
    requires TreeOk(nodes)
    ensures UniquePaths(nodes)
  {
  }

  /** Renaming touches no document's type or bytes. */
  lemma SameDocs(nodes: Nodes, disk: Disk, index: nat, src: Path, dst: Path, now: u64)
    requires index < MAX_NODES && nodes[index].Some? && AllReadable(nodes, disk)
    ensures var nodes' := RenamedNodes(nodes, index, src, dst, now);
      && AllReadable(nodes', disk)
      && forall i | 0 <= i < MAX_NODES && nodes[i].Some? :: DocAt(nodes', disk, i) == DocAt(nodes, disk, i)
  {
    var nodes' := RenamedNodes(nodes, index, src, dst, now);
    forall i | 0 <= i < MAX_NODES && nodes[i].Some?
      ensures Readable(disk, nodes'[i].value)
      ensures Content(disk, nodes'[i].value) == Content(disk, nodes[i].value)
    {
      assert nodes'[i].value.extents == nodes[i].value.extents;
    }
  }

  lemma RenameRefines(fs: Fs, disk: Disk, src: Path, dst: Path, now: u64, p: Path)
    requires FsOk(fs) && |disk| == fs.geom.totalBlocks && AllReadable(fs.nodes, disk)
    requires Utf8.Valid(src) && Utf8.Valid(dst) && !Under(Clean(dst), Clean(src))
    ensures Refined(fs, disk, Rename(src, dst, now), DoRename(fs, src, dst, now), disk, p)
  {
    hide Readable, Content, Exact, Disjoint, NodesOk, UsedFits, HandlesOk, Clean, Lookup, Under, CheckRename;
    var m := DoRename(fs, src, dst, now);
    if m.result.Ok? {
      var index := CheckRename(fs.nodes, Clean(src), Clean(dst)).index;
      RenameNamesClean(fs.nodes, src, dst);
      RenamedLookup(fs.nodes, disk, index, Clean(src), Clean(dst), now, p);
    }
  }

  lemma RenameNamesClean(nodes: Nodes, src: Path, dst: Path)
    requires CleanPaths(nodes) && CheckRename(nodes, Clean(src), Clean(dst)).Allowed?
    ensures IsClean(Clean(src)) && IsClean(Clean(dst))
  {
    CleanIsClean(dst);
  }

  // ---- calls through a handle --------------------------------------------------------------

  /** Slot `i` keeps its name and type; the others are kept. */
  lemma OneDocChanged(fs: Fs, disk: Disk, fs': Fs, disk': Disk, i: nat, p: Path)
    requires FsOk(fs) && FsOk(fs') && AllReadable(fs.nodes, disk) && AllReadable(fs'.nodes, disk')
    requires i < MAX_NODES && fs.nodes[i].Some? && fs'.nodes[i].Some?
    requires fs'.nodes[i].value.path == fs.nodes[i].value.path && OthersKept(fs.nodes, disk, fs'.nodes, disk', i)
    ensures if p == fs.nodes[i].value.path then
              && Lookup(fs.nodes, disk, p) == Some(DocAt(fs.nodes, disk, i))
              && Lookup(fs'.nodes, disk', p) == Some(DocAt(fs'.nodes, disk', i))
            else Lookup(fs'.nodes, disk', p) == Lookup(fs.nodes, disk, p)
  {
    hide Content, Readable, OthersKept, NodesOk, AllocOk, HandlesOk, UsedFits;
    if p == fs.nodes[i].value.path {
      LookupAt(fs.nodes, disk, i);
      LookupAt(fs'.nodes, disk', i);
    } else {
      LookupElsewhere(fs.nodes, disk, fs'.nodes, disk', i, p);
    }
  }

  lemma WriteNodeRefines(fs: Fs, disk: Disk, i: nat, offset: nat, input: seq<u8>, now: u64, p: Path)
    requires FsOk(fs) && |disk| == fs.geom.totalBlocks && AllReadable(fs.nodes, disk)
    requires CanWrite(fs, i) && fs.nodes[i].value.fileType == File
    ensures var m := WriteNode(fs, i, offset, input, now);
      && FsOk(m.fs) && (forall j | 0 <= j < |m.data| :: WriteFits(disk, m.data[j]))
      && AllReadable(m.fs.nodes, DiskOf(disk, m))
      && var before, after := Lookup(fs.nodes, disk, p), Lookup(m.fs.nodes, DiskOf(disk, m), p);
         if m.result.Ok? && p == fs.nodes[i].value.path then
           before.Some? && after.Some? && after.value.fileType == File
           && Overlaid(before.value.bytes, after.value.bytes, offset, input)
         else after == before
  {
    hide Content, Readable, OthersKept, Overlaid, Exact, Disjoint, TreeOk, UsedFits, HandlesOk, Lookup, EnsureBlocks;
    var m := WriteNode(fs, i, offset, input, now);
    var n := fs.nodes[i].value;
    assert NodeOk(fs.geom, n);
    WriteKeepsOk(fs, i, offset, input, now);
    OkIsOkButSize(fs, i);
    if m.result.Ok? {
      WriteContent(fs, disk, i, n.size, offset, input, now);
      assert n.(size := n.size) == n;
      var n' := m.fs.nodes[i].value;
      assert n'.(size := Max(n.size, offset + |input|)) == n';
    } else {
      FailedContent(fs, disk, i, offset, input, now);
      assert DiskOf(disk, m) == disk;
    }
    OkReadable(m.fs, DiskOf(disk, m));
    OneDocChanged(fs, disk, m.fs, DiskOf(disk, m), i, p);
  }

  lemma WriteRefines(fs: Fs, disk: Disk, handle: nat, input: seq<u8>, now: u64, p: Path)
    requires FsOk(fs) && |disk| == fs.geom.totalBlocks && AllReadable(fs.nodes, disk)
    requires forall i | 0 <= i < MAX_NODES && fs.nodes[i].Some? :: CanWrite(fs, i)
    ensures var m := DoWrite(fs, handle, input, now);
      && (forall j | 0 <= j < |m.data| :: WriteFits(disk, m.data[j]))
      && Refined(fs, disk, WriteTo(handle, input, now), m, DiskOf(disk, m), p)
  {
    hide CanWrite, NodesOk, TreeOk, AllocOk, UsedFits, AllReadable, Lookup, WriteNode, WriteFits, Overlaid, DiskOf;
    var k := FindHandle(fs.handles, handle, 0);
    if k.Some? && fs.handles[k.value].flags.write {
      var h := fs.handles[k.value];
      WriteNodeRefines(fs, disk, h.node, WriteOffset(fs, h), input, now, p);
      SameDisk(disk, WriteNode(fs, h.node, WriteOffset(fs, h), input, now), DoWrite(fs, handle, input, now));
    } else {
      NoData(disk, DoWrite(fs, handle, input, now));
    }
  }

  lemma SameDisk(disk: Disk, a: Mutation, b: Mutation)
    requires a.data == b.data && forall j | 0 <= j < |a.data| :: WriteFits(disk, a.data[j])
    ensures DiskOf(disk, a) == DiskOf(disk, b)
  {
  }

  lemma ResizeRefines(fs: Fs, disk: Disk, i: nat, target: u64, now: u64, p: Path)
    requires FsOk(fs) && |disk| == fs.geom.totalBlocks && AllReadable(fs.nodes, disk)
    requires CanWrite(fs, i) && fs.nodes[i].value.fileType == File && Readable(disk, fs.nodes[i].value)
    requires target < fs.nodes[i].value.size ==> ShrinkFits(fs, i, target)
    ensures var m := Resize(fs, disk, i, target, now);
      && FsOk(m.fs) && (forall j | 0 <= j < |m.data| :: WriteFits(disk, m.data[j]))
      && AllReadable(m.fs.nodes, DiskOf(disk, m))
      && var before, after := Lookup(fs.nodes, disk, p), Lookup(m.fs.nodes, DiskOf(disk, m), p);
         if p == fs.nodes[i].value.path then
           && before.Some? && after.Some? && after.value.fileType == before.value.fileType == File
           && (m.result.Ok? ==> after.value.bytes == Sized(before.value.bytes, target))
           && (m.result.Err? ==>
                && |before.value.bytes| <= |after.value.bytes|
                && after.value.bytes == before.value.bytes + Zeros(|after.value.bytes| - |before.value.bytes|))
         else after == before
  {
    hide FsOk, Content, Readable, OthersKept, Lookup, WriteNode, Zeros, ZeroExtend, Shrink, ShrinkFits, DataFits,
         WriteFits;
    var m := Resize(fs, disk, i, target, now);
    var size := fs.nodes[i].value.size;
    ResizeOk(fs, disk, i, target, now);
    if target == size {
      NoData(disk, m);
      KeptRefl(fs.nodes, disk, m.fs.nodes, i);
    } else if target < size {
      var keep := ReadBytes(disk, fs.nodes[i].value, 0, target);
      ShrinkIff(fs, i, keep, now);
      ShrinkContent(fs, disk, i, keep, now);
    } else {
      ZeroContent(fs, disk, i, target - size, now);
      SameDisk(disk, ZeroExtend(fs, i, size, target - size, now), m);
    }
    OkReadable(m.fs, DiskOf(disk, m));
    OneDocChanged(fs, disk, m.fs, DiskOf(disk, m), i, p);
  }

  lemma FtruncateRefines(fs: Fs, disk: Disk, handle: nat, target: u64, now: u64, p: Path)
    requires FsOk(fs) && Mounted(fs, disk) && AllReadable(fs.nodes, disk)
    requires Permitted(fs, Ftruncate(handle, target, now))
    ensures var m := DoFtruncate(fs, disk, handle, target, now);
      && (forall j | 0 <= j < |m.data| :: WriteFits(disk, m.data[j]))
      && Refined(fs, disk, Ftruncate(handle, target, now), m, DiskOf(disk, m), p)
  {
    hide NodesOk, TreeOk, AllocOk, UsedFits, AllReadable, Lookup, WriteFits, DiskOf, Resize, Readable, ShrinkFits;
    var k := FindHandle(fs.handles, handle, 0);
    if k.Some? && fs.handles[k.value].flags.write {
      var i := fs.handles[k.value].node;
      OkIsOkButSize(fs, i);
      ReadableNode(fs, disk, i);
      ResizeRefines(fs, disk, i, target, now, p);
    } else {
      NoData(disk, DoFtruncate(fs, disk, handle, target, now));
      FailedFtruncate(fs, disk, handle, target, now, p);
    }
  }

  lemma FailedFtruncate(fs: Fs, disk: Disk, handle: nat, target: u64, now: u64, p: Path)
    requires FsOk(fs) && AllReadable(fs.nodes, disk)
    ensures Survives(fs, Ftruncate(handle, target, now), p, Lookup(fs.nodes, disk, p), Lookup(fs.nodes, disk, p))
  {
    hide Content, Readable;
    var k := FindHandle(fs.handles, handle, 0);
    if k.Some? {
      LookupAt(fs.nodes, disk, fs.handles[k.value].node);
    }
  }

  /** Opening, seeking and syncing change no document. */
  lemma QuietRefines(fs: Fs, disk: Disk, op: Op, p: Path)
    requires FsOk(fs) && Mounted(fs, disk) && AllReadable(fs.nodes, disk)
    requires op.OpenNode? || op.Seek? || op.Fsync? || op.Close?
    ensures Mutate(fs, disk, op).data == [] && Refined(fs, disk, op, Mutate(fs, disk, op), disk, p)
  {
    hide NodesOk, TreeOk, AllocOk, UsedFits, AllReadable, Lookup;
  }

  /** A read returns the slice of the file at the handle's offset. */
  lemma ReadRefines(fs: Fs, disk: Disk, handle: nat, len: nat, p: Path)
    requires FsOk(fs) && Mounted(fs, disk) && AllReadable(fs.nodes, disk)
    ensures Refined(fs, disk, Read(handle, len), DoRead(fs, disk, handle, len), disk, p)
  {
    hide NodesOk, AllocOk, UsedFits, AllReadable, Readable, ReadBytes, Slice;
    var k := FindHandle(fs.handles, handle, 0);
    if k.Some? {
      var i := fs.handles[k.value].node;
      ReadableNode(fs, disk, i);
      LookupAt(fs.nodes, disk, i);
      ReadIsSlice(disk, fs.nodes[i].value, fs.handles[k.value].offset, len);
    }
  }

  lemma ReadIsSlice(disk: Disk, n: Node, offset: nat, len: nat)
    requires Readable(disk, n)
    ensures ReadBytes(disk, n, offset, len) == Slice(Content(disk, n), offset, len)
  {
  }

  lemma MutateRefines(fs: Fs, disk: Disk, op: Op, p: Path)
    requires FsOk(fs) && Mounted(fs, disk) && AllReadable(fs.nodes, disk) && Permitted(fs, op)
    ensures var m := Mutate(fs, disk, op);
      && (forall j | 0 <= j < |m.data| :: WriteFits(disk, m.data[j]))
      && Refined(fs, disk, op, m, DiskOf(disk, m), p)
  {
    hide Refined, NodesOk, TreeOk, AllocOk, UsedFits, AllReadable, WriteFits, DiskOf, DoCreate, DoRemove, DoRename,
      DoTruncate, DoRead, DoWrite, DoFtruncate, CanWrite;
    var m := Mutate(fs, disk, op);
    match op {
      case Create(path, directory, now) => CreateRefines(fs, disk, path, directory, now, p);
      case Remove(path) => RemoveRefines(fs, disk, path, p);
      case Rename(src, dst, now) => RenameRefines(fs, disk, src, dst, now, p);
      case Truncate(path, now) => TruncateRefines(fs, disk, path, now, p);
      case WriteTo(handle, data, now) =>
        WriteOk(fs, handle, data, now);
        WriteRefines(fs, disk, handle, data, now, p);
      case Ftruncate(handle, target, now) => FtruncateRefines(fs, disk, handle, target, now, p);
      case Read(handle, len) => ReadRefines(fs, disk, handle, len, p);
      case _ => QuietRefines(fs, disk, op, p);
    }
    if !op.WriteTo? && !op.Ftruncate? {
      NoDataFor(fs, disk, op);
      NoData(disk, m);
    }
  }

  lemma NoDataFor(fs: Fs, disk: Disk, op: Op)
    requires Mounted(fs, disk) && !op.WriteTo? && !op.Ftruncate?
    ensures Mutate(fs, disk, op).data == []
  {
    hide NodesOk, UsedFits;
  }

  /** A commit changes no document. */
  lemma CommitKeepsDocs(fs: Fs, disk: Disk, p: Path)
    requires FsOk(fs) && |disk| == fs.geom.totalBlocks
    ensures GeomOk(fs.geom) && NodesOk(fs.geom, fs.nodes) && fs.activeSlot <= 1
    ensures var disk' := Apply(disk, CommitWrites(fs));
      && AllReadable(fs.nodes, disk) && AllReadable(fs.nodes, disk')
      && Lookup(fs.nodes, disk', p) == Lookup(fs.nodes, disk, p)
  {
    hide NodesOk, TreeOk, AllocOk, UsedFits, AllReadable, Content, CommitWrites;
    var disk' := Apply(disk, CommitWrites(fs));
    forall b | fs.geom.dataStart <= b < fs.geom.totalBlocks
      ensures disk'[b] == disk[b]
    {
      CommitKeepsData(fs, disk, b);
    }
    DataKept(fs, disk, disk');
  }

  /** Every permitted operation, run to its end with its commit, acts on the
      documents as `Becomes` says when it succeeds and as `Survives` says when it
      fails, at every path. */
  lemma OperationRefines(fs: Fs, disk: Disk, op: Op, p: Path)
    requires FsOk(fs) && |disk| == fs.geom.totalBlocks && Permitted(fs, op)
    ensures Mounted(fs, disk) && CanFinish(disk, Mutate(fs, disk, op)) && AllReadable(fs.nodes, disk)
    ensures var e, m := Exec(fs, disk, op), Mutate(fs, disk, op);
      && AllReadable(e.fs.nodes, Apply(disk, e.writes))
      && var before, after := Lookup(fs.nodes, disk, p), Lookup(e.fs.nodes, Apply(disk, e.writes), p);
         && (m.result.Ok? ==> Becomes(fs, disk, op, p, after, m.result.data))
         && (m.result.Err? ==> Survives(fs, op, p, before, after))
  {
    hide Becomes, Survives, Lookup, AllReadable, WriteFits, Permitted, Mounted, Mutate, CommitWrites, DataFits, NodesOk,
      TreeOk, AllocOk, UsedFits;
    OpWrites(fs, disk, op);
    var m := Mutate(fs, disk, op);
    OkReadable(fs, disk);
    MutateRefines(fs, disk, op, p);
    if Commits(m) {
      CommitKeepsDocs(m.fs, DiskOf(disk, m), p);
      ApplyConcat(disk, Expand(disk, m.data, |m.data|), CommitWrites(m.fs));
    }
  }
}
