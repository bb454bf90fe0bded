/** The mounted file system as a value, and every operation as the in-memory
    change plus the block writes it issues, in order. The allocation bitmap is
    held as the set of blocks whose bits are set. */
module FsOps {
  import opened Bytes
  import opened FsFormat
  import opened FsNode
  import opened FsAlloc
  import opened FsTree
  import Bitmap
  import Crc

  datatype VfsError =
    | NotFound | AlreadyExists | InvalidPath | IoError
    | PermissionDenied | IsADirectory | InvalidDescriptor

  datatype Outcome = Ok(value: nat, data: seq<u8>) | Err(error: VfsError)

  const DONE: Outcome := Ok(0, [])

  datatype Flags = Flags(read: bool, write: bool, create: bool, trunc: bool, append: bool, exclusive: bool)

  datatype Handle = Handle(id: nat, node: nat, offset: nat, flags: Flags)

  datatype Fs = Fs(
    geom: Geometry, generation: nat, activeSlot: nat, used: set<nat>, nodes: Nodes,
    handles: seq<Handle>, nextHandle: nat, dirty: bool, readOnly: bool)

  // ---- the disk ----------------------------------------------------------------

  datatype Write = Write(lba: nat, data: Block)

  function Apply1(disk: Disk, w: Write): (d: Disk)
    ensures |d| == |disk|
  {
    if w.lba < |disk| then disk[w.lba := w.data] else disk
  }

  function ApplyFirst(disk: Disk, ws: seq<Write>, k: nat): (d: Disk)
    requires k <= |ws|
    ensures |d| == |disk|
  {
    if k == 0 then disk else Apply1(ApplyFirst(disk, ws, k - 1), ws[k - 1])
  }

  /** The disk after a list of writes. */
  function Apply(disk: Disk, ws: seq<Write>): (d: Disk)
    ensures |d| == |disk|
  {
    ApplyFirst(disk, ws, |ws|)
  }

  lemma {:induction false} ApplyPrefix(disk: Disk, a: seq<Write>, b: seq<Write>, k: nat)
    requires k <= |a|
    ensures ApplyFirst(disk, a + b, k) == ApplyFirst(disk, a, k)
  {
    if k > 0 {
      ApplyPrefix(disk, a, b, k - 1);
    }
  }

  lemma {:induction false} ApplyRest(disk: Disk, a: seq<Write>, b: seq<Write>, k: nat)
    requires k <= |b|
    ensures ApplyFirst(disk, a + b, |a| + k) == ApplyFirst(Apply(disk, a), b, k)
  {
    if k == 0 {
      ApplyPrefix(disk, a, b, |a|);
    } else {
      ApplyRest(disk, a, b, k - 1);
      assert (a + b)[|a| + k - 1] == b[k - 1];
    }
  }

  lemma ApplyConcat(disk: Disk, a: seq<Write>, b: seq<Write>)
    ensures Apply(disk, a + b) == Apply(Apply(disk, a), b)
  {
    ApplyRest(disk, a, b, |b|);
  }

  lemma ApplyNone(disk: Disk)
    ensures Apply(disk, []) == disk
  {
  }

  lemma ApplySnoc(disk: Disk, ws: seq<Write>, w: Write)
    ensures Apply(disk, ws + [w]) == Apply1(Apply(disk, ws), w)
  {
    ApplyPrefix(disk, ws, [w], |ws|);
  }

  /** Blocks no write names keep their content. */
  lemma {:induction false} ApplyFrame(disk: Disk, ws: seq<Write>, k: nat, b: nat)
    requires k <= |ws| && b < |disk| && forall i | 0 <= i < k :: ws[i].lba != b
    ensures ApplyFirst(disk, ws, k)[b] == disk[b]
  {
    if k > 0 {
      ApplyFrame(disk, ws, k - 1, b);
    }
  }

  // ---- file content --------------------------------------------------------------

  ghost predicate OnDisk(disk: Disk, ext: seq<Extent>) {
    forall k | 0 <= k < |Blocks(ext)| :: Blocks(ext)[k] < |disk|
  }

  function ByteAt(disk: Disk, ext: seq<Extent>, p: nat): u8
    requires OnDisk(disk, ext) && p < Allocated(ext) * BLOCK_SIZE
  {
    disk[Blocks(ext)[p / BLOCK_SIZE]][p % BLOCK_SIZE]
  }

  ghost predicate Readable(disk: Disk, n: Node) {
    OnDisk(disk, n.extents) && n.size <= Allocated(n.extents) * BLOCK_SIZE
  }

  /** The byte string a node stands for. */
  function Content(disk: Disk, n: Node): (s: seq<u8>)
    requires Readable(disk, n)
    ensures |s| == n.size
  {
    seq(n.size, p requires 0 <= p < n.size => ByteAt(disk, n.extents, p))
  }

  function ReadBytes(disk: Disk, n: Node, offset: nat, len: nat): seq<u8>
    requires Readable(disk, n)
  {
    if offset >= n.size then [] else Content(disk, n)[offset..Min(offset + len, n.size)]
  }

  /** The sector loop of a write: read-modify-write for partial sectors. */
  function DataWrites(disk: Disk, ext: seq<Extent>, offset: nat, input: seq<u8>, done: nat): seq<Write>
    requires OnDisk(disk, ext) && done <= |input| && offset + |input| <= Allocated(ext) * BLOCK_SIZE
    decreases |input| - done
  {
    if done == |input| then []
    else
      var w := SectorWrite(disk, ext, offset, input, done);
      [w] + DataWrites(Apply1(disk, w), ext, offset, input, done + SectorCount(offset, input, done))
  }

  function SectorCount(offset: nat, input: seq<u8>, done: nat): (c: nat)
    requires done < |input|
    ensures 0 < c <= |input| - done
  {
    Min(|input| - done, BLOCK_SIZE - (offset + done) % BLOCK_SIZE)
  }

  function SectorWrite(disk: Disk, ext: seq<Extent>, offset: nat, input: seq<u8>, done: nat): Write
    requires OnDisk(disk, ext) && done < |input| && offset + |input| <= Allocated(ext) * BLOCK_SIZE
  {
    var position := offset + done;
    var within := position % BLOCK_SIZE;
    var count := SectorCount(offset, input, done);
    var physical := Blocks(ext)[position / BLOCK_SIZE];
    var sector: Block := if within != 0 || count != BLOCK_SIZE then disk[physical] else Zeros(BLOCK_SIZE);
    Write(physical, sector[..within] + input[done..done + count] + sector[within + count..])
  }

  // ---- handles ----------------------------------------------------------------------

  function FindHandle(hs: seq<Handle>, id: nat, from: nat): (r: Option<nat>)
    requires from <= |hs|
    ensures r.Some? ==> from <= r.value < |hs| && hs[r.value].id == id
    ensures forall i | from <= i < (if r.Some? then r.value else |hs|) :: hs[i].id != id
    decreases |hs| - from
  {
    if from == |hs| then None else if hs[from].id == id then Some(from) else FindHandle(hs, id, from + 1)
  }

  function DropNode(hs: seq<Handle>, node: nat): (r: seq<Handle>)
    ensures forall h :: h in r <==> h in hs && h.node != node
  {
    if hs == [] then []
    else
      var rest := DropNode(hs[..|hs| - 1], node);
      assert forall h :: h in hs <==> h in hs[..|hs| - 1] || h == hs[|hs| - 1];
      if hs[|hs| - 1].node == node then rest else rest + [hs[|hs| - 1]]
  }

  // ---- operations -------------------------------------------------------------------

  datatype Op =
    | Create(path: Path, directory: bool, now: u64)
    | Remove(path: Path)
    | Rename(src: Path, dst: Path, now: u64)
    | Truncate(path: Path, now: u64)
    | OpenNode(path: Path, flags: Flags)
    | Read(handle: nat, len: nat)
    | WriteTo(handle: nat, data: seq<u8>, now: u64)
    | Seek(handle: nat, offset: int, whence: nat)
    | Fsync(handle: nat)
    | Close(handle: nat)
    | Ftruncate(handle: nat, target: u64, now: u64)

  /** Bytes handed to the sector loop: where, through which extents. */
  datatype FileWrite = FileWrite(extents: seq<Extent>, offset: nat, data: seq<u8>)

  /** The part of an operation before its commit: new memory, file data
      written, reply, and whether the operation goes on to commit. */
  datatype Mutation = Mutation(fs: Fs, data: seq<FileWrite>, result: Outcome, publish: bool)

  function Fail(fs: Fs, e: VfsError): Mutation { Mutation(fs, [], Err(e), false) }

  /** Every used block has a bit in the bitmap. */
  ghost predicate UsedFits(g: Geometry, used: set<nat>) {
    forall b | b in used :: b < g.BitmapLen() * 8
  }

  lemma ReleaseFits(g: Geometry, used: set<nat>, ext: seq<Extent>)
    requires UsedFits(g, used)
    ensures UsedFits(g, ReleaseExtents(used, ext))
  {
    forall b | b in ReleaseExtents(used, ext)
      ensures b < g.BitmapLen() * 8
    {
      ReleaseHas(used, ext, |ext|, b);
    }
  }

  /** What writing to node `i` relies on; its recorded size may be stale. */
  ghost predicate CanWrite(fs: Fs, i: nat) {
    match fs
    case Fs(geom, _, _, used, nodes, _, _, _, _) =>
      && GeomOk(geom) && UsedFits(geom, used)
      && i < MAX_NODES && nodes[i].Some? && |nodes[i].value.extents| <= MAX_EXTENTS
      && forall k | 0 <= k < |nodes[i].value.extents| :: ExtentOk(geom, nodes[i].value.extents[k])
  }

  ghost predicate HandlesOk(fs: Fs) {
    forall k | 0 <= k < |fs.handles| ::
      && fs.handles[k].node < MAX_NODES && fs.nodes[fs.handles[k].node].Some?
      && fs.nodes[fs.handles[k].node].value.fileType == File
  }

  /** The shape every operation may rely on between calls. */
  ghost predicate Mounted(fs: Fs, disk: Disk) {
    match fs
    case Fs(geom, _, _, used, nodes, _, _, _, _) =>
      && GeomOk(geom) && |disk| == geom.totalBlocks && UsedFits(geom, used)
      && NodesOk(geom, nodes) && HandlesOk(fs)
  }

  lemma ExtentsOnDisk(g: Geometry, disk: Disk, ext: seq<Extent>)
    requires |disk| == g.totalBlocks && forall k | 0 <= k < |ext| :: ExtentOk(g, ext[k])
    ensures OnDisk(disk, ext)
  {
    forall k | 0 <= k < |Blocks(ext)|
      ensures Blocks(ext)[k] < |disk|
    {
      BlocksInData(g, ext, Blocks(ext)[k]);
    }
  }

  lemma NodeReadable(g: Geometry, disk: Disk, n: Node)
    requires |disk| == g.totalBlocks && NodeOk(g, n)
    ensures Readable(disk, n)
  {
    ExtentsOnDisk(g, disk, n.extents);
  }

  function DoCreate(fs: Fs, path: Path, directory: bool, now: u64): Mutation {
    var clean := Clean(path);
    if fs.readOnly then Fail(fs, PermissionDenied)
    else if |clean| == 0 || |clean| > PATH_SIZE || !ParentExists(fs.nodes, clean) then Fail(fs, InvalidPath)
    else if FindPath(fs.nodes, clean, 0).Some? then Fail(fs, AlreadyExists)
    else match FindFree(fs.nodes, 0)
      case None => Fail(fs, IoError)
      case Some(i) =>
        var node := Node(clean, if directory then Directory else File,
                         if directory then 0x1ed else 0x1a4, 0, now, now, []);
        Mutation(fs.(nodes := fs.nodes[i := Some(node)], dirty := true), [], DONE, true)
  }

  function Release(fs: Fs, i: nat): Fs
    requires i < MAX_NODES && fs.nodes[i].Some?
  {
    fs.(used := ReleaseExtents(fs.used, fs.nodes[i].value.extents),
        nodes := fs.nodes[i := Some(fs.nodes[i].value.(extents := []))])
  }

  function DoRemove(fs: Fs, path: Path): Mutation {
    if fs.readOnly then Fail(fs, PermissionDenied)
    else match NodeIndex(fs.nodes, path)
      case None => Fail(fs, NotFound)
      case Some(i) =>
        if fs.nodes[i].value.fileType != File then Fail(fs, IsADirectory)
        else
          var freed := Release(fs, i);
          Mutation(freed.(nodes := freed.nodes[i := None], handles := DropNode(fs.handles, i), dirty := true),
                   [], DONE, true)
  }

  function DoTruncate(fs: Fs, path: Path, now: u64): Mutation {
    if fs.readOnly then Fail(fs, PermissionDenied)
    else match NodeIndex(fs.nodes, path)
      case None => Fail(fs, NotFound)
      case Some(i) =>
        if fs.nodes[i].value.fileType != File then Fail(fs, IsADirectory)
        else
          var freed := Release(fs, i);
          Mutation(freed.(nodes := freed.nodes[i := Some(freed.nodes[i].value.(size := 0, mtime := now))],
                          dirty := true),
                   [], DONE, true)
  }

  function DoRename(fs: Fs, src: Path, dst: Path, now: u64): Mutation {
    if fs.readOnly then Fail(fs, PermissionDenied)
    else match CheckRename(fs.nodes, Clean(src), Clean(dst))
      case Missing => Fail(fs, NotFound)
      case BadName => Fail(fs, InvalidPath)
      case Exists => Fail(fs, AlreadyExists)
      case NoParent => Fail(fs, InvalidPath)
      case TooLong => Fail(fs, InvalidPath)
      case Allowed(i) =>
        Mutation(fs.(nodes := RenamedNodes(fs.nodes, i, Clean(src), Clean(dst), now), dirty := true), [], DONE, true)
  }

  function DoOpen(fs: Fs, path: Path, flags: Flags): Mutation {
    match NodeIndex(fs.nodes, path)
    case None => Fail(fs, NotFound)
    case Some(i) =>
      if fs.nodes[i].value.fileType != File then Fail(fs, IsADirectory)
      else
        var h := Handle(fs.nextHandle, i, if flags.append then fs.nodes[i].value.size else 0, flags);
        Mutation(fs.(handles := fs.handles + [h], nextHandle := fs.nextHandle + 1), [], Ok(fs.nextHandle, []), false)
  }

  /** Writes `input` into node `i` at `offset`. Running out of space keeps the
      extents gained so far and leaves the dirty flag alone. */
  function WriteNode(fs: Fs, i: nat, offset: nat, input: seq<u8>, now: u64): Mutation
    requires CanWrite(fs, i)
  {
    var node := fs.nodes[i].value;
    if fs.readOnly then Fail(fs, PermissionDenied)
    else if offset + |input| >= 0x1_0000_0000_0000_0000 then Fail(fs, IoError)
    else
      var end := offset + |input|;
      var r := EnsureBlocks(fs.used, fs.geom, node.extents, CeilDiv(end, BLOCK_SIZE));
      if !r.ok then
        Fail(fs.(used := r.used, nodes := fs.nodes[i := Some(node.(extents := r.extents))]), IoError)
      else
        Mutation(
          fs.(used := r.used, dirty := true,
              nodes := fs.nodes[i := Some(node.(extents := r.extents, size := Max(node.size, end), mtime := now))]),
          [FileWrite(r.extents, offset, input)], Ok(|input|, []), false)
  }

  lemma EnsuredFits(fs: Fs, i: nat, needed: nat)
    requires CanWrite(fs, i)
    ensures var r := EnsureBlocks(fs.used, fs.geom, fs.nodes[i].value.extents, needed);
      && UsedFits(fs.geom, r.used) && |r.extents| <= MAX_EXTENTS
      && (forall k | 0 <= k < |r.extents| :: ExtentOk(fs.geom, r.extents[k]))
      && (r.ok ==> Allocated(r.extents) >= needed)
  {
    DeriveBounds(fs.geom);
    var added := EnsureCorrect(fs.used, fs.geom, fs.nodes[i].value.extents, needed);
  }

  lemma WriteKeepsCanWrite(fs: Fs, i: nat, offset: nat, input: seq<u8>, now: u64)
    requires CanWrite(fs, i)
    ensures CanWrite(WriteNode(fs, i, offset, input, now).fs, i)
  {
    if !fs.readOnly && offset + |input| < 0x1_0000_0000_0000_0000 {
      EnsuredFits(fs, i, CeilDiv(offset + |input|, BLOCK_SIZE));
    }
  }

  /** Zero-extends node `i` in chunks of at most one block. */
  function ZeroExtend(fs: Fs, i: nat, offset: nat, remaining: nat, now: u64): Mutation
    requires CanWrite(fs, i)
    decreases remaining
  {
    if remaining == 0 then Mutation(fs, [], DONE, false)
    else
      var chunk := Min(remaining, BLOCK_SIZE);
      var m := WriteNode(fs, i, offset, Zeros(chunk), now);
      if m.result.Err? then m
      else
        WriteKeepsCanWrite(fs, i, offset, Zeros(chunk), now);
        var rest := ZeroExtend(m.fs, i, offset + chunk, remaining - chunk, now);
        Mutation(rest.fs, m.data + rest.data, rest.result, false)
  }

  /** Shrinking reads the kept prefix, frees every block, rewrites the prefix
      and then sets the size. A failed rewrite returns in between. */
  function Shrink(fs: Fs, i: nat, keep: seq<u8>, now: u64): Mutation
    requires CanWrite(fs, i)
  {
    var freed := Release(fs, i);
    ReleaseFits(fs.geom, fs.used, fs.nodes[i].value.extents);
    var m := if keep != [] then WriteNode(freed, i, 0, keep, now) else Mutation(freed, [], DONE, false);
    if m.result.Err? then m
    else
      var nodes := m.fs.nodes[i := Some(m.fs.nodes[i].value.(size := |keep|, mtime := now))];
      Mutation(m.fs.(nodes := nodes, dirty := true), m.data, DONE, true)
  }

  /** Sets the length of file node `i`. */
  function Resize(fs: Fs, disk: Disk, i: nat, target: nat, now: u64): Mutation
    requires CanWrite(fs, i) && Readable(disk, fs.nodes[i].value)
  {
    var cur := fs.nodes[i].value.size;
    if target == cur then Mutation(fs, [], DONE, false)
    else if target < cur then Shrink(fs, i, ReadBytes(disk, fs.nodes[i].value, 0, target), now)
    else
      var m := ZeroExtend(fs, i, cur, target - cur, now);
      if m.result.Err? then m else Mutation(m.fs.(dirty := true), m.data, DONE, true)
  }

  function DoFtruncate(fs: Fs, disk: Disk, handle: nat, target: u64, now: u64): Mutation
    requires Mounted(fs, disk)
  {
    if fs.readOnly then Fail(fs, PermissionDenied)
    else match FindHandle(fs.handles, handle, 0)
      case None => Fail(fs, InvalidDescriptor)
      case Some(k) =>
        if !fs.handles[k].flags.write then Fail(fs, PermissionDenied)
        else
          NodeReadable(fs.geom, disk, fs.nodes[fs.handles[k].node].value);
          Resize(fs, disk, fs.handles[k].node, target, now)
  }

  function DoRead(fs: Fs, disk: Disk, handle: nat, len: nat): Mutation
    requires Mounted(fs, disk)
  {
    match FindHandle(fs.handles, handle, 0)
    case None => Fail(fs, InvalidDescriptor)
    case Some(k) =>
      var h := fs.handles[k];
      if !h.flags.read then Fail(fs, PermissionDenied)
      else
        NodeReadable(fs.geom, disk, fs.nodes[h.node].value);
        var out := ReadBytes(disk, fs.nodes[h.node].value, h.offset, len);
        Mutation(fs.(handles := fs.handles[k := h.(offset := h.offset + |out|)]), [], Ok(|out|, out), false)
  }

  /** Where a write through a handle lands. */
  function WriteOffset(fs: Fs, h: Handle): nat
    requires h.node < MAX_NODES && fs.nodes[h.node].Some?
  {
    if h.flags.append then fs.nodes[h.node].value.size else h.offset
  }

  function DoWrite(fs: Fs, handle: nat, input: seq<u8>, now: u64): Mutation
    requires HandlesOk(fs) && forall i | 0 <= i < MAX_NODES && fs.nodes[i].Some? :: CanWrite(fs, i)
  {
    match FindHandle(fs.handles, handle, 0)
    case None => Fail(fs, InvalidDescriptor)
    case Some(k) =>
      var h := fs.handles[k];
      if !h.flags.write then Fail(fs, PermissionDenied)
      else
        var offset := WriteOffset(fs, h);
        var m := WriteNode(fs, h.node, offset, input, now);
        if m.result.Err? then m
        else m.(fs := m.fs.(handles := fs.handles[k := h.(offset := offset + |input|)]))
  }

  function AsI64(x: nat): int {
    if x % 0x1_0000_0000_0000_0000 < 0x8000_0000_0000_0000 then x % 0x1_0000_0000_0000_0000
    else x % 0x1_0000_0000_0000_0000 - 0x1_0000_0000_0000_0000
  }

  function DoSeek(fs: Fs, handle: nat, offset: int, whence: nat): Mutation
    requires HandlesOk(fs)
  {
    match FindHandle(fs.handles, handle, 0)
    case None => Fail(fs, InvalidDescriptor)
    case Some(k) =>
      var h := fs.handles[k];
      if whence > 2 then Fail(fs, InvalidPath)
      else
        var base := if whence == 0 then 0 else if whence == 1 then AsI64(h.offset)
            else AsI64(fs.nodes[h.node].value.size);
        var position := base + offset;
        if position < 0 || position >= 0x8000_0000_0000_0000 then Fail(fs, InvalidPath)
        else Mutation(fs.(handles := fs.handles[k := h.(offset := position)]), [], Ok(position, []), false)
  }

  function DoSync(fs: Fs, handle: nat, close: bool): Mutation {
    match FindHandle(fs.handles, handle, 0)
    case None => Fail(fs, InvalidDescriptor)
    case Some(k) =>
      Mutation(if close then fs.(handles := fs.handles[..k] + fs.handles[k + 1..]) else fs, [], DONE, true)
  }

  function Mutate(fs: Fs, disk: Disk, op: Op): Mutation
    requires Mounted(fs, disk)
  {
    match op
    case Create(path, directory, now) => DoCreate(fs, path, directory, now)
    case Remove(path) => DoRemove(fs, path)
    case Rename(src, dst, now) => DoRename(fs, src, dst, now)
    case Truncate(path, now) => DoTruncate(fs, path, now)
    case OpenNode(path, flags) => DoOpen(fs, path, flags)
    case Read(handle, len) => DoRead(fs, disk, handle, len)
    case WriteTo(handle, data, now) => DoWrite(fs, handle, data, now)
    case Seek(handle, offset, whence) => DoSeek(fs, handle, offset, whence)
    case Fsync(handle) => DoSync(fs, handle, false)
    case Close(handle) => DoSync(fs, handle, true)
    case Ftruncate(handle, target, now) => DoFtruncate(fs, disk, handle, target, now)
  }

  // ---- commit -------------------------------------------------------------------------

  function Chunk(image: seq<u8>, i: nat): Block
    requires (i + 1) * BLOCK_SIZE <= |image|
  {
    image[i * BLOCK_SIZE..(i + 1) * BLOCK_SIZE]
  }

  function SlotWrites(g: Geometry, slot: nat, image: seq<u8>): (ws: seq<Write>)
    requires |image| == g.SlotBytes()
    ensures |ws| == g.slotBlocks
  {
    seq(g.slotBlocks, i requires 0 <= i < g.slotBlocks => Write(g.SlotStart(slot) + i, Chunk(image, i)))
  }

  function Image(fs: Fs): (s: seq<u8>)
    requires GeomOk(fs.geom) && NodesOk(fs.geom, fs.nodes)
    ensures |s| == fs.geom.SlotBytes()
  {
    Serialize(Bitmap.Pack(fs.used, fs.geom.BitmapLen()), fs.nodes)
  }

  function NextSuper(fs: Fs): SuperBlock
    requires GeomOk(fs.geom) && NodesOk(fs.geom, fs.nodes)
    requires fs.activeSlot <= 1
  {
    SuperBlock(fs.generation + 1, 1 - fs.activeSlot, Crc.Crc32(Image(fs)))
  }

  /** The whole image goes to the inactive slot, then the primary superblock,
      then the backup. */
  function CommitWrites(fs: Fs): (ws: seq<Write>)
    requires GeomOk(fs.geom) && NodesOk(fs.geom, fs.nodes)
    requires fs.activeSlot <= 1
    ensures |ws| == fs.geom.slotBlocks + 2
  {
    var super := EncodeSuper(NextSuper(fs), fs.geom);
    SlotWrites(fs.geom, 1 - fs.activeSlot, Image(fs)) + [Write(0, super), Write(1, super)]
  }

  function Committed(fs: Fs): Fs
    requires fs.activeSlot <= 1
  {
    fs.(activeSlot := 1 - fs.activeSlot, generation := fs.generation + 1, dirty := false)
  }

  // ---- from file data to blocks ----------------------------------------------------

  ghost predicate WriteFits(disk: Disk, w: FileWrite) {
    OnDisk(disk, w.extents) && w.offset + |w.data| <= Allocated(w.extents) * BLOCK_SIZE
  }

  /** The block writes of the first `k` file writes, each sector loop reading
      the disk its predecessors left. */
  function Expand(disk: Disk, data: seq<FileWrite>, k: nat): seq<Write>
    requires k <= |data| && forall j | 0 <= j < |data| :: WriteFits(disk, data[j])
  {
    if k == 0 then []
    else
      var ws := Expand(disk, data, k - 1);
      ws + DataWrites(Apply(disk, ws), data[k - 1].extents, data[k - 1].offset, data[k - 1].data, 0)
  }

  datatype Step = Step(fs: Fs, writes: seq<Write>, result: Outcome)

  /** What an operation needs to run to its end: its file data fits the disk,
      and metadata it publishes can be encoded. */
  ghost predicate CanFinish(disk: Disk, m: Mutation) {
    && (forall j | 0 <= j < |m.data| :: WriteFits(disk, m.data[j]))
    && (m.publish && m.fs.dirty && !m.fs.readOnly ==>
          GeomOk(m.fs.geom) && NodesOk(m.fs.geom, m.fs.nodes) && m.fs.activeSlot <= 1)
  }

  /** An operation in full: its mutation, the data blocks, and the commit if it
      asks for one and there is something to publish. */
  function Exec(fs: Fs, disk: Disk, op: Op): Step
    requires Mounted(fs, disk) && CanFinish(disk, Mutate(fs, disk, op))
  {
    var m := Mutate(fs, disk, op);
    var ws := Expand(disk, m.data, |m.data|);
    if !m.publish || !m.fs.dirty then Step(m.fs, ws, m.result)
    else if m.fs.readOnly then Step(m.fs, ws, Err(PermissionDenied))
    else Step(Committed(m.fs), ws + CommitWrites(m.fs), m.result)
  }
}
