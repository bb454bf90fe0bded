/** The in-memory invariant: a tree of decodable nodes whose blocks are exactly
    the allocated ones. Every permitted operation keeps it. */
module FsInv {
  import opened Bytes
  import opened FsFormat
  import opened FsNode
  import opened FsAlloc
  import opened FsTree
  import opened FsOps
  import Utf8

  function BlocksOf(nodes: Nodes, i: nat): seq<nat>
    requires i < MAX_NODES
  {
    if nodes[i].Some? then Blocks(nodes[i].value.extents) else []
  }

  ghost predicate Owned(nodes: Nodes, b: nat) {
    exists i :: 0 <= i < MAX_NODES && b in BlocksOf(nodes, i)
  }

  ghost predicate Disjoint(nodes: Nodes) {
    && (forall i | 0 <= i < MAX_NODES :: NoDup(BlocksOf(nodes, i)))
    && (forall i, j, b | 0 <= i < j < MAX_NODES && b in BlocksOf(nodes, i) :: b !in BlocksOf(nodes, j))
  }

  /** In the data region a bit is set exactly when some node owns the block. */
  ghost predicate Exact(g: Geometry, used: set<nat>, nodes: Nodes) {
    forall b | g.dataStart <= b < g.totalBlocks :: b in used <==> Owned(nodes, b)
  }

  ghost predicate AllocOk(g: Geometry, used: set<nat>, nodes: Nodes) {
    Disjoint(nodes) && Exact(g, used, nodes)
  }

  /** Metadata that may be published. */
  ghost predicate MetaOk(g: Geometry, used: set<nat>, nodes: Nodes) {
    && UsedFits(g, used) && NodesOk(g, nodes) && TreeOk(nodes) && AllocOk(g, used, nodes)
  }

  ghost predicate FsOk(fs: Fs) {
    match fs
    case Fs(geom, _, activeSlot, used, nodes, _, _, _, readOnly) =>
      && GeomOk(geom) && MetaOk(geom, used, nodes) && HandlesOk(fs) && activeSlot <= 1 && !readOnly
  }

  // ---- allocation steps -------------------------------------------------------

  lemma SameBlocks(g: Geometry, used: set<nat>, nodes: Nodes, nodes': Nodes)
    requires AllocOk(g, used, nodes)
    requires forall i | 0 <= i < MAX_NODES :: BlocksOf(nodes', i) == BlocksOf(nodes, i)
    ensures AllocOk(g, used, nodes')
  {
    forall b | g.dataStart <= b < g.totalBlocks
      ensures b in used <==> Owned(nodes', b)
    {
      if Owned(nodes, b) {
        var i :| 0 <= i < MAX_NODES && b in BlocksOf(nodes, i);
        assert b in BlocksOf(nodes', i);
      }
      if Owned(nodes', b) {
        var i :| 0 <= i < MAX_NODES && b in BlocksOf(nodes', i);
        assert b in BlocksOf(nodes, i);
      }
    }
  }

  /** Ownership after one node's blocks changed. */
  lemma OwnedAfter(nodes: Nodes, nodes': Nodes, i: nat, b: nat)
    requires i < MAX_NODES
    requires forall j | 0 <= j < MAX_NODES && j != i :: BlocksOf(nodes', j) == BlocksOf(nodes, j)
    ensures Owned(nodes', b) ==> b in BlocksOf(nodes', i) || Owned(nodes, b)
    ensures Owned(nodes, b) ==> b in BlocksOf(nodes, i) || Owned(nodes', b)
  {
    if Owned(nodes', b) {
      var j :| 0 <= j < MAX_NODES && b in BlocksOf(nodes', j);
      assert j != i ==> b in BlocksOf(nodes, j);
    }
    if Owned(nodes, b) {
      var j :| 0 <= j < MAX_NODES && b in BlocksOf(nodes, j);
      assert j != i ==> b in BlocksOf(nodes', j);
    }
  }

  /** Growing a file takes only blocks nobody owned. */
  lemma GrowKeepsAlloc(g: Geometry, used: set<nat>, nodes: Nodes, i: nat, n: Node, r: Growth, added: seq<nat>)
    requires i < MAX_NODES && nodes[i].Some? && AllocOk(g, used, nodes)
    requires n.extents == r.extents && Grown(g, used, nodes[i].value.extents, r, added)
    ensures AllocOk(g, r.used, nodes[i := Some(n)])
  {
    var nodes' := nodes[i := Some(n)];
    var was := BlocksOf(nodes, i);
    assert BlocksOf(nodes', i) == was + added;
    GrowExact(g, used, nodes, nodes', i, r.used, added);
    forall b | b in added
      ensures !Owned(nodes, b)
    {
    }
    GrowDisjoint(nodes, nodes', i, added);
  }

  lemma GrowExact(g: Geometry, used: set<nat>, nodes: Nodes, nodes': Nodes, i: nat, used': set<nat>, added: seq<nat>)
    requires i < MAX_NODES && Exact(g, used, nodes)
    requires forall j | 0 <= j < MAX_NODES && j != i :: BlocksOf(nodes', j) == BlocksOf(nodes, j)
    requires BlocksOf(nodes', i) == BlocksOf(nodes, i) + added
    requires forall b :: b in used' <==> b in used || b in added
    ensures Exact(g, used', nodes')
  {
    forall b | g.dataStart <= b < g.totalBlocks
      ensures b in used' <==> Owned(nodes', b)
    {
      OwnedAfter(nodes, nodes', i, b);
      if b in BlocksOf(nodes', i) {
        assert b in BlocksOf(nodes, i) || b in added;
        assert b in BlocksOf(nodes, i) ==> Owned(nodes, b);
      }
      if b in BlocksOf(nodes, i) || b in added {
        assert b in BlocksOf(nodes', i);
      }
    }
  }

  lemma GrowDisjoint(nodes: Nodes, nodes': Nodes, i: nat, added: seq<nat>)
    requires i < MAX_NODES && Disjoint(nodes) && NoDup(added)
    requires forall j | 0 <= j < MAX_NODES && j != i :: BlocksOf(nodes', j) == BlocksOf(nodes, j)
    requires BlocksOf(nodes', i) == BlocksOf(nodes, i) + added
    requires forall b | b in added :: !Owned(nodes, b)
    ensures Disjoint(nodes')
  {
    hide NoDupIn, BlocksOf, Owned;
    var was := BlocksOf(nodes, i);
    assert NoDup(was);
    forall k | 0 <= k < |added|
      ensures added[k] !in was
    {
      NotOwned(nodes, i, added[k]);
    }
    NoDupConcat(was, added, |added|);
    forall k | 0 <= k < MAX_NODES
      ensures NoDup(BlocksOf(nodes', k))
    {
      assert NoDup(BlocksOf(nodes, k));
    }
    GrowApart(nodes, nodes', i, added);
  }

  lemma NotOwned(nodes: Nodes, i: nat, b: nat)
    requires i < MAX_NODES && !Owned(nodes, b)
    ensures b !in BlocksOf(nodes, i)
  {
  }

  lemma GrowApart(nodes: Nodes, nodes': Nodes, i: nat, added: seq<nat>)
    requires i < MAX_NODES && Disjoint(nodes)
    requires forall j | 0 <= j < MAX_NODES && j != i :: BlocksOf(nodes', j) == BlocksOf(nodes, j)
    requires forall x | x in BlocksOf(nodes', i) :: x in BlocksOf(nodes, i) || x in added
    requires forall b | b in added :: !Owned(nodes, b)
    ensures forall j, k, b | 0 <= j < k < MAX_NODES && b in BlocksOf(nodes', j) :: b !in BlocksOf(nodes', k)
  {
    forall j, k, b | 0 <= j < k < MAX_NODES && b in BlocksOf(nodes', j)
      ensures b !in BlocksOf(nodes', k)
    {
      if b in BlocksOf(nodes, j) {
        assert Owned(nodes, b);
      }
    }
  }

  /** Freeing a file's extents gives back exactly its blocks. */
  lemma ReleaseKeepsAlloc(g: Geometry, used: set<nat>, nodes: Nodes, i: nat, n: Option<Node>)
    requires i < MAX_NODES && nodes[i].Some? && AllocOk(g, used, nodes)
    requires n.Some? ==> n.value.extents == []
    ensures AllocOk(g, ReleaseExtents(used, nodes[i].value.extents), nodes[i := n])
  {
    var nodes' := nodes[i := n];
    var ext := nodes[i].value.extents;
    var used' := ReleaseExtents(used, ext);
    assert BlocksOf(nodes', i) == [];
    forall b | g.dataStart <= b < g.totalBlocks
      ensures b in used' <==> Owned(nodes', b)
    {
      ReleaseHas(used, ext, |ext|, b);
      ReleasedOwner(nodes, nodes', i, b);
    }
    ReleasedDisjoint(nodes, nodes', i);
  }

  lemma ReleasedOwner(nodes: Nodes, nodes': Nodes, i: nat, b: nat)
    requires i < MAX_NODES && Disjoint(nodes) && BlocksOf(nodes', i) == []
    requires forall j | 0 <= j < MAX_NODES && j != i :: nodes'[j] == nodes[j]
    ensures Owned(nodes', b) <==> Owned(nodes, b) && b !in BlocksOf(nodes, i)
  {
    OwnedAfter(nodes, nodes', i, b);
    if Owned(nodes', b) {
      var j :| 0 <= j < MAX_NODES && b in BlocksOf(nodes', j);
      assert b in BlocksOf(nodes, j);
    }
  }

  lemma ReleasedDisjoint(nodes: Nodes, nodes': Nodes, i: nat)
    requires i < MAX_NODES && Disjoint(nodes) && BlocksOf(nodes', i) == []
    requires forall j | 0 <= j < MAX_NODES && j != i :: nodes'[j] == nodes[j]
    ensures Disjoint(nodes')
  {
    forall j, k, b | 0 <= j < k < MAX_NODES && b in BlocksOf(nodes', j)
      ensures b !in BlocksOf(nodes', k)
    {
      assert b in BlocksOf(nodes, j);
      assert k != i ==> BlocksOf(nodes', k) == BlocksOf(nodes, k);
    }
    forall k | 0 <= k < MAX_NODES
      ensures NoDup(BlocksOf(nodes', k))
    {
      assert NoDup(BlocksOf(nodes, k));
    }
  }

  // ---- the tree under node updates -----------------------------------------------

  /** A node whose path and type stay put does not disturb the tree. */
  lemma SamePathsTree(nodes: Nodes, i: nat, n: Node)
    requires i < MAX_NODES && nodes[i].Some? && TreeOk(nodes)
    requires n.path == nodes[i].value.path && n.fileType == nodes[i].value.fileType
    ensures TreeOk(nodes[i := Some(n)])
  {
    var nodes' := nodes[i := Some(n)];
    forall k | 0 <= k < MAX_NODES && nodes'[k].Some?
      ensures ParentExists(nodes', nodes'[k].value.path)
    {
      assert ParentExists(nodes, nodes[k].value.path);
      if Parent(nodes[k].value.path).Some? {
        SameFind(nodes, nodes', Parent(nodes[k].value.path).value, 0);
      }
    }
  }

  lemma {:induction false} SameFind(nodes: Nodes, nodes': Nodes, p: Path, from: nat)
    requires from <= MAX_NODES
    requires forall i | 0 <= i < MAX_NODES ::
      nodes[i].Some? == nodes'[i].Some? && (nodes[i].Some? ==> nodes[i].value.path == nodes'[i].value.path)
    ensures FindPath(nodes', p, from) == FindPath(nodes, p, from)
    decreases MAX_NODES - from, nodes
  {
    if from < MAX_NODES {
      SameFind(nodes, nodes', p, from + 1);
    }
  }

  lemma StillDirectory(nodes: Nodes, nodes': Nodes, p: Path)
    requires UniquePaths(nodes') && IsDirectory(nodes, p)
    requires forall i | 0 <= i < MAX_NODES && nodes[i].Some? && nodes[i].value.fileType == Directory ::
      nodes'[i] == nodes[i]
    ensures IsDirectory(nodes', p)
  {
    var i := FindPath(nodes, p, 0).value;
    FindsAt(nodes', i);
  }

  lemma AddedTree(nodes: Nodes, i: nat, n: Node)
    requires i < MAX_NODES && nodes[i].None? && TreeOk(nodes)
    requires IsClean(n.path) && FindPath(nodes, n.path, 0).None? && ParentExists(nodes, n.path)
    ensures TreeOk(nodes[i := Some(n)])
  {
    var nodes' := nodes[i := Some(n)];
    assert UniquePaths(nodes');
    forall k | 0 <= k < MAX_NODES && nodes'[k].Some?
      ensures ParentExists(nodes', nodes'[k].value.path)
    {
      var p := nodes'[k].value.path;
      assert ParentExists(nodes, p);
      if Parent(p).Some? {
        StillDirectory(nodes, nodes', Parent(p).value);
      }
    }
  }

  lemma RemovedTree(nodes: Nodes, i: nat)
    requires i < MAX_NODES && nodes[i].Some? && TreeOk(nodes) && nodes[i].value.fileType != Directory
    ensures TreeOk(nodes[i := None])
  {
    var nodes' := nodes[i := None];
    forall k | 0 <= k < MAX_NODES && nodes'[k].Some?
      ensures ParentExists(nodes', nodes'[k].value.path)
    {
      var p := nodes'[k].value.path;
      assert ParentExists(nodes, p);
      if Parent(p).Some? {
        StillDirectory(nodes, nodes', Parent(p).value);
      }
    }
  }

  // ---- operations -----------------------------------------------------------------

  /** Putting a fresh, empty node into a free slot. */
  lemma AddedOk(fs: Fs, i: nat, n: Node)
    requires FsOk(fs) && i < MAX_NODES && fs.nodes[i].None?
    requires NodeOk(fs.geom, n) && n.extents == []
    requires IsClean(n.path) && FindPath(fs.nodes, n.path, 0).None? && ParentExists(fs.nodes, n.path)
    ensures FsOk(fs.(nodes := fs.nodes[i := Some(n)], dirty := true))
  {
    AddedTree(fs.nodes, i, n);
    SameBlocks(fs.geom, fs.used, fs.nodes, fs.nodes[i := Some(n)]);
  }

  lemma CreateOk(fs: Fs, path: Path, directory: bool, now: u64)
    requires FsOk(fs) && Utf8.Valid(path)
    ensures FsOk(DoCreate(fs, path, directory, now).fs)
  {
    var m := DoCreate(fs, path, directory, now);
    if m.result.Err? {
      assert m.fs == fs;
    } else {
      CleanIsClean(path);
      CleanUtf8(path);
      var i := FindFree(fs.nodes, 0).value;
      AddedOk(fs, i, m.fs.nodes[i].value);
    }
  }

  lemma RemoveOk(fs: Fs, path: Path)
    requires FsOk(fs)
    ensures FsOk(DoRemove(fs, path).fs)
  {
    var m := DoRemove(fs, path);
    if m.result == DONE {
      var i := NodeIndex(fs.nodes, path).value;
      RemovedTree(fs.nodes, i);
      ReleaseFits(fs.geom, fs.used, fs.nodes[i].value.extents);
      ReleaseKeepsAlloc(fs.geom, fs.used, fs.nodes, i, None);
      assert m.fs.nodes == fs.nodes[i := None];
      forall k | 0 <= k < |m.fs.handles|
        ensures m.fs.handles[k].node != i && m.fs.handles[k] in fs.handles
      {
        assert m.fs.handles[k] in m.fs.handles;
      }
    }
  }

  lemma TruncateOk(fs: Fs, path: Path, now: u64)
    requires FsOk(fs)
    ensures FsOk(DoTruncate(fs, path, now).fs)
  {
    var m := DoTruncate(fs, path, now);
    if m.result == DONE {
      var i := NodeIndex(fs.nodes, path).value;
      var n := m.fs.nodes[i].value;
      SamePathsTree(fs.nodes, i, n);
      ReleaseFits(fs.geom, fs.used, fs.nodes[i].value.extents);
      ReleaseKeepsAlloc(fs.geom, fs.used, fs.nodes, i, Some(n));
      assert m.fs.nodes == fs.nodes[i := Some(n)];
    }
  }

  lemma RenamedOk(g: Geometry, n: Node, isSource: bool, isDir: bool, src: Path, dst: Path, now: u64)
    requires NodeOk(g, n) && Utf8.Valid(src) && Utf8.Valid(dst) && 0 < |dst| <= PATH_SIZE
    requires isDir && Under(n.path, src) ==> |Moved(n.path, src, dst)| <= PATH_SIZE
    ensures NodeOk(g, RenamedNode(n, isSource, isDir, src, dst, now))
  {
    if !isSource && isDir && Under(n.path, src) {
      var s := n.path[|src| + 1..];
      UnderSlash(n.path, src);
      assert n.path == (src + [SLASH]) + s;
      assert Utf8.Valid([SLASH]);
      Utf8.ValidConcat(src, [SLASH]);
      Utf8.ValidConcat(src + [SLASH], s);
      Utf8.ValidConcat(dst, [SLASH]);
      Utf8.ValidConcat(dst + [SLASH], s);
    }
  }

  lemma RenamedNodesOk(g: Geometry, nodes: Nodes, index: nat, src: Path, dst: Path, now: u64)
    requires NodesOk(g, nodes) && Utf8.Valid(src) && Utf8.Valid(dst)
    requires CheckRename(nodes, src, dst) == Allowed(index)
    ensures NodesOk(g, RenamedNodes(nodes, index, src, dst, now))
  {
    var nodes' := RenamedNodes(nodes, index, src, dst, now);
    var isDir := nodes[index].value.fileType == Directory;
    forall i | 0 <= i < MAX_NODES && nodes'[i].Some?
      ensures NodeOk(g, nodes'[i].value)
    {
      RenamedOk(g, nodes[i].value, i == index, isDir, src, dst, now);
    }
  }

  lemma RenamedFsOk(fs: Fs, index: nat, src: Path, dst: Path, now: u64)
    requires FsOk(fs) && Utf8.Valid(src) && Utf8.Valid(dst) && IsClean(dst) && !Under(dst, src)
    requires CheckRename(fs.nodes, src, dst) == Allowed(index)
    ensures FsOk(fs.(nodes := RenamedNodes(fs.nodes, index, src, dst, now), dirty := true))
  {
    RenameKeepsTree(fs.nodes, index, src, dst, now);
    RenamedNodesOk(fs.geom, fs.nodes, index, src, dst, now);
    SameBlocks(fs.geom, fs.used, fs.nodes, RenamedNodes(fs.nodes, index, src, dst, now));
  }

  lemma RenameTarget(nodes: Nodes, src: Path, dst: Path)
    requires CheckRename(nodes, src, dst).Allowed?
    ensures dst != []
  {
  }

  /** Rename keeps the invariant unless it moves a directory into itself. */
  lemma RenameOk(fs: Fs, src: Path, dst: Path, now: u64)
    requires FsOk(fs) && Utf8.Valid(src) && Utf8.Valid(dst) && !Under(Clean(dst), Clean(src))
    ensures FsOk(DoRename(fs, src, dst, now).fs)
  {
    hide FsOk, Clean, Under, CheckRename, RenamedNodes;
    var m := DoRename(fs, src, dst, now);
    if m.result.Err? {
      assert m.fs == fs;
    } else {
      RenameTarget(fs.nodes, Clean(src), Clean(dst));
      CleanIsClean(dst);
      CleanUtf8(src);
      CleanUtf8(dst);
      RenamedFsOk(fs, CheckRename(fs.nodes, Clean(src), Clean(dst)).index, Clean(src), Clean(dst), now);
    }
  }

  /** The invariant without node `i`'s size check: what holds between freeing a
      file's blocks and setting its new size. */
  ghost predicate OkButSize(fs: Fs, i: nat) {
    match fs
    case Fs(geom, _, activeSlot, used, nodes, _, _, _, readOnly) =>
      && GeomOk(geom) && UsedFits(geom, used)
      && i < MAX_NODES && nodes[i].Some? && nodes[i].value.fileType == File
      && NodesOk(geom, nodes[i := Some(nodes[i].value.(size := 0))])
      && TreeOk(nodes) && AllocOk(geom, used, nodes)
      && HandlesOk(fs) && activeSlot <= 1 && !readOnly
  }

  lemma SizeSetOk(fs: Fs, i: nat, size: nat, now: u64)
    requires OkButSize(fs, i)
    requires size <= Allocated(fs.nodes[i].value.extents) * BLOCK_SIZE && size < 0x1_0000_0000_0000_0000
    ensures FsOk(fs.(nodes := fs.nodes[i := Some(fs.nodes[i].value.(size := size, mtime := now))], dirty := true))
  {
    var n := fs.nodes[i].value.(size := size, mtime := now);
    var nodes' := fs.nodes[i := Some(n)];
    SamePathsTree(fs.nodes, i, n);
    SameBlocks(fs.geom, fs.used, fs.nodes, nodes');
    var zeroed := fs.nodes[i := Some(fs.nodes[i].value.(size := 0))];
    forall k | 0 <= k < MAX_NODES && nodes'[k].Some?
      ensures NodeOk(fs.geom, nodes'[k].value)
    {
      assert NodeOk(fs.geom, zeroed[k].value);
    }
  }

  lemma OkIsOkButSize(fs: Fs, i: nat)
    requires FsOk(fs)
    requires i < MAX_NODES && fs.nodes[i].Some? && fs.nodes[i].value.fileType == File
    ensures OkButSize(fs, i) && CanWrite(fs, i)
  {
    assert NodeOk(fs.geom, fs.nodes[i].value);
  }

  lemma GrownNodeOk(fs: Fs, i: nat, n: Node, r: Growth, added: seq<nat>)
    requires OkButSize(fs, i) && n.extents == r.extents
    requires n == fs.nodes[i].value.(extents := n.extents, size := n.size, mtime := n.mtime)
    requires Grown(fs.geom, fs.used, fs.nodes[i].value.extents, r, added)
    ensures OkButSize(fs.(used := r.used, nodes := fs.nodes[i := Some(n)]), i)
  {
    SamePathsTree(fs.nodes, i, n);
    GrowKeepsAlloc(fs.geom, fs.used, fs.nodes, i, n, r, added);
    DeriveBounds(fs.geom);
    var zeroed := fs.nodes[i := Some(fs.nodes[i].value.(size := 0))];
    var nodes' := fs.nodes[i := Some(n)][i := Some(n.(size := 0))];
    forall k | 0 <= k < MAX_NODES && nodes'[k].Some?
      ensures NodeOk(fs.geom, nodes'[k].value)
    {
      assert NodeOk(fs.geom, zeroed[k].value);
    }
  }

  /** A write keeps everything but, perhaps, a stale size it found; on success
      the size it leaves is backed by blocks if the old one was. */
  lemma WriteNodeOk(fs: Fs, i: nat, offset: nat, input: seq<u8>, now: u64)
    requires OkButSize(fs, i) && CanWrite(fs, i)
    ensures var m := WriteNode(fs, i, offset, input, now);
      && OkButSize(m.fs, i)
      && Allocated(fs.nodes[i].value.extents) <= Allocated(m.fs.nodes[i].value.extents)
      && (m.result.Err? ==> m.fs.nodes[i].value.size == fs.nodes[i].value.size)
      && (m.result.Ok? ==>
           && offset + |input| <= Allocated(m.fs.nodes[i].value.extents) * BLOCK_SIZE
           && offset + |input| < 0x1_0000_0000_0000_0000
           && m.fs.nodes[i].value.size == Max(fs.nodes[i].value.size, offset + |input|))
  {
    if offset + |input| < 0x1_0000_0000_0000_0000 {
      var n := fs.nodes[i].value;
      var needed := CeilDiv(offset + |input|, BLOCK_SIZE);
      DeriveBounds(fs.geom);
      var added := EnsureCorrect(fs.used, fs.geom, n.extents, needed);
      var r := EnsureBlocks(fs.used, fs.geom, n.extents, needed);
      assert |Blocks(r.extents)| == |Blocks(n.extents)| + |added|;
      GrownNodeOk(fs, i, WriteNode(fs, i, offset, input, now).fs.nodes[i].value, r, added);
    }
  }

  lemma BackedIsOk(fs: Fs, i: nat)
    requires OkButSize(fs, i)
    requires fs.nodes[i].value.size <= Allocated(fs.nodes[i].value.extents) * BLOCK_SIZE
    requires fs.nodes[i].value.size < 0x1_0000_0000_0000_0000
    ensures FsOk(fs)
  {
    var n := fs.nodes[i].value;
    SizeSetOk(fs, i, n.size, n.mtime);
    assert fs.nodes[i := Some(n.(size := n.size, mtime := n.mtime))] == fs.nodes;
  }

  lemma WriteKeepsOk(fs: Fs, i: nat, offset: nat, input: seq<u8>, now: u64)
    requires FsOk(fs)
    requires i < MAX_NODES && fs.nodes[i].Some? && fs.nodes[i].value.fileType == File
    ensures CanWrite(fs, i) && FsOk(WriteNode(fs, i, offset, input, now).fs)
  {
    OkIsOkButSize(fs, i);
    assert NodeOk(fs.geom, fs.nodes[i].value);
    WriteNodeOk(fs, i, offset, input, now);
    BackedIsOk(WriteNode(fs, i, offset, input, now).fs, i);
  }
}
