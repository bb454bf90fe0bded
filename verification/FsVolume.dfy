/** The mounted volume as the object it is: fields updated in place, loops over
    the bitmap, the extents and the sectors, and a device that sees one block
    write at a time. Every method does exactly what its value-level operation
    says, issuing the same writes in the same order. */
module FsVolume {
  import opened Bytes
  import opened FsFormat
  import opened FsNode
  import opened FsAlloc
  import opened FsTree
  import opened FsOps
  import opened FsInv
  import opened FsStep
  import opened FsLoad
  import opened FsCrash
  import opened FsRuns
  import opened FsView
  import FsAnswers
  import Bitmap
  import Crc

  /** A partition; `log` is the history of block writes. */
  class Device {
    var blocks: Disk
    ghost var log: seq<Write>

    constructor (blocks: Disk)
      ensures this.blocks == blocks && log == []
    {
      this.blocks := blocks;
      log := [];
    }

    method WriteBlock(lba: nat, data: Block)
      modifies this
      ensures log == old(log) + [Write(lba, data)] && blocks == Apply1(old(blocks), Write(lba, data))
    {
      if lba < |blocks| {
        blocks := blocks[lba := data];
      }
      log := log + [Write(lba, data)];
    }
  }

  class DunitFs {
    const device: Device
    const geom: Geometry
    var generation: nat
    var activeSlot: nat
    var bitmap: seq<u8>
    var nodes: Nodes
    var handles: seq<Handle>
    var nextHandle: nat
    var dirty: bool
    var readOnly: bool
    /** The metadata last committed. */
    ghost var saved: Meta

    /** A volume over the nodes accepted from a slot image. */
    constructor (device: Device, g: Geometry, sb: SuperBlock, image: seq<u8>, nodes: Nodes, readOnly: bool,
                 ghost saved: Meta)
      requires GeomOk(g) && ImageOk(g, image) && sb.activeSlot <= 1
      ensures this.device == device && Valid() && State() == Assemble(g, sb, image, nodes, readOnly)
      ensures this.saved == saved
    {
      this.saved := saved;
      this.device, geom := device, g;
      generation, activeSlot := sb.generation, sb.activeSlot;
      bitmap := image[..g.BitmapLen()];
      this.nodes, handles, nextHandle := nodes, [], 1;
      dirty := false;
      this.readOnly := readOnly;
    }

    /** The volume as a value. */
    ghost function State(): Fs
      reads this
    {
      Fs(geom, generation, activeSlot, Bitmap.Unpack(bitmap), nodes, handles, nextHandle, dirty, readOnly)
    }

    ghost predicate Valid()
      reads this
    {
      GeomOk(geom) && |bitmap| == geom.BitmapLen() && activeSlot <= 1
    }

    /** The volume is well formed and in step with its device: a remount would
        give exactly what was last committed. */
    ghost predicate Sound()
      reads this, device
    {
      InStep(device.blocks, State(), saved)
    }

    /** A call outside the two limits, with a generation left to commit. */
    ghost predicate Serves(op: Op)
      reads this
    {
      && HandlesOk(State()) && geom.dataStart <= geom.totalBlocks && Permitted(State(), op)
      && generation + 1 < 0x1_0000_0000_0000_0000
    }

    /** A sound volume can run every such call to its end. */
    lemma SoundReady(op: Op)
      requires Valid() && Sound() && Serves(op)
      ensures Ready(op)
      ensures Load(device.blocks, geom) == Loaded(MountOf(geom, saved))
    {
      hide Permitted, Mutate, FsOk, Load, CanFinish, Mounted;
      OpWrites(State(), device.blocks, op);
      LoadPublished(device.blocks, geom, saved);
    }

    /** The call is about to run: `saved` becomes what it will leave committed. */
    ghost method Settle(op: Op)
      requires Ready(op)
      modifies this`saved
      ensures var e := Exec(State(), device.blocks, op);
        old(Sound()) && Serves(op) ==> InStep(Apply(device.blocks, e.writes), e.fs, saved)
    {
      hide Permitted, Mutate, Exec, CanFinish, Mounted, Apply, FsOk, Survivor, Stands, Publishable;
      if Sound() && Serves(op) {
        OpKeepsStep(device.blocks, State(), saved, op);
        saved := Survivor(State(), device.blocks, op, saved, |Exec(State(), device.blocks, op).writes|);
      }
    }

    // ---- bitmap --------------------------------------------------------------------

    method MarkUsed(start: nat, len: nat)
      requires start + len <= |bitmap| * 8
      modifies this`bitmap
      ensures |bitmap| == old(|bitmap|)
      ensures Bitmap.Unpack(bitmap) == FsAlloc.MarkUsed(old(Bitmap.Unpack(bitmap)), start, len)
    {
      hide Bitmap.Unpack, Bitmap.BitPut;
      for k := 0 to len
        invariant |bitmap| == old(|bitmap|)
        invariant Bitmap.Unpack(bitmap) == FsAlloc.MarkUsed(old(Bitmap.Unpack(bitmap)), start, k)
      {
        Bitmap.UnpackPut(bitmap, start + k, true);
        bitmap := Bitmap.BitPut(bitmap, start + k, true);
      }
    }

    method MarkFree(start: nat, len: nat)
      requires start + len <= |bitmap| * 8
      modifies this`bitmap
      ensures |bitmap| == old(|bitmap|)
      ensures Bitmap.Unpack(bitmap) == FsAlloc.MarkFree(old(Bitmap.Unpack(bitmap)), start, len)
    {
      hide Bitmap.Unpack, Bitmap.BitPut;
      for k := 0 to len
        invariant |bitmap| == old(|bitmap|)
        invariant Bitmap.Unpack(bitmap) == FsAlloc.MarkFree(old(Bitmap.Unpack(bitmap)), start, k)
      {
        Bitmap.UnpackPut(bitmap, start + k, false);
        bitmap := Bitmap.BitPut(bitmap, start + k, false);
      }
    }

    /** First fit, by testing bits. */
    method AllocRun(max: nat) returns (run: Option<(nat, nat)>)
      requires Valid() && max > 0
      ensures run == FsAlloc.AllocRun(Bitmap.Unpack(bitmap), geom, max)
    {
      hide Bitmap.BitGet, Bitmap.Unpack;
      DeriveBounds(geom);
      ghost var used := Bitmap.Unpack(bitmap);
      var block := geom.dataStart;
      while block < geom.totalBlocks
        invariant geom.dataStart <= block <= geom.totalBlocks
        invariant Scan(used, geom.dataStart, geom.totalBlocks, false) == Scan(used, block, geom.totalBlocks, false)
      {
        Bitmap.UnpackHas(bitmap, block);
        if !Bitmap.BitGet(bitmap, block) {
          var len := RunLength(block, max);
          return Some((block, len));
        }
        block := block + 1;
      }
      return None;
    }

    method RunLength(block: nat, max: nat) returns (len: nat)
      requires max > 0 && block < geom.totalBlocks
      ensures len == Scan(Bitmap.Unpack(bitmap), block + 1, Min(block + max, geom.totalBlocks), true) - block
    {
      hide Bitmap.BitGet, Bitmap.Unpack;
      ghost var limit := Min(block + max, geom.totalBlocks);
      len := 1;
      while len < max && block + len < geom.totalBlocks && !Bitmap.BitGet(bitmap, block + len)
        invariant block + len <= limit
        invariant Scan(Bitmap.Unpack(bitmap), block + 1, limit, true) ==
                  Scan(Bitmap.Unpack(bitmap), block + len, limit, true)
      {
        Bitmap.UnpackHas(bitmap, block + len);
        len := len + 1;
      }
      Bitmap.UnpackHas(bitmap, block + len);
    }

    // ---- extents ---------------------------------------------------------------------

    method FreeExtents(index: nat)
      requires Valid() && CanWrite(State(), index)
      modifies this`bitmap, this`nodes
      ensures Valid() && State() == Release(old(State()), index)
    {
      hide Bitmap.Unpack, UsedFits;
      DeriveBounds(geom);
      var ext := nodes[index].value.extents;
      nodes := nodes[index := Some(nodes[index].value.(extents := []))];
      for k := 0 to |ext|
        invariant |bitmap| == old(|bitmap|) && nodes == Release(old(State()), index).nodes
        invariant Bitmap.Unpack(bitmap) == ReleaseIn(old(Bitmap.Unpack(bitmap)), ext, k)
      {
        assert ExtentOk(geom, ext[k]);
        MarkFree(ext[k].start, ext[k].len);
      }
    }

    /** Widens the last extent if the run continues it, else appends the run if
        there is a free extent slot. */
    method AddRun(index: nat, start: nat, len: nat) returns (ok: bool)
      requires index < MAX_NODES && nodes[index].Some? && |nodes[index].value.extents| <= MAX_EXTENTS
      requires start + len <= |bitmap| * 8
      modifies this`bitmap, this`nodes
      ensures |bitmap| == old(|bitmap|)
      ensures var next := NextExtents(old(nodes[index].value.extents), start, len);
        && ok == (|next| <= MAX_EXTENTS)
        && nodes == (if ok then WithExtents(old(nodes), index, next) else old(nodes))
        && Bitmap.Unpack(bitmap) == (if ok then FsAlloc.MarkUsed(old(Bitmap.Unpack(bitmap)), start, len)
                                     else old(Bitmap.Unpack(bitmap)))
    {
      hide Bitmap.Unpack;
      var ext := nodes[index].value.extents;
      if ext != [] && ext[|ext| - 1].start + ext[|ext| - 1].len == start {
        ext := ext[|ext| - 1 := Extent(ext[|ext| - 1].start, ext[|ext| - 1].len + len)];
      } else if |ext| == MAX_EXTENTS {
        return false;
      } else {
        ext := ext + [Extent(start, len)];
      }
      nodes := WithExtents(nodes, index, ext);
      MarkUsed(start, len);
      return true;
    }

    method EnsureBlocks(index: nat, needed: nat) returns (ok: bool)
      requires Valid() && CanWrite(State(), index)
      modifies this`bitmap, this`nodes
      ensures Valid()
      ensures var r := FsAlloc.EnsureBlocks(old(State().used), geom, old(nodes[index].value.extents), needed);
        && ok == r.ok
        && State() == old(State()).(used := r.used, nodes := WithExtents(old(nodes), index, r.extents))
    {
      hide Bitmap.Unpack, UsedFits, FsAlloc.AllocRun, Grow, FsAlloc.MarkUsed, NextExtents;
      DeriveBounds(geom);
      var have := Allocated(nodes[index].value.extents);
      assert WithExtents(nodes, index, nodes[index].value.extents) == nodes;
      if needed <= have {
        return true;
      }
      ghost var goal := Grow(State().used, geom, nodes[index].value.extents, needed - have);
      var remaining := needed - have;
      while remaining > 0
        invariant 0 <= remaining && |bitmap| == old(|bitmap|)
        invariant nodes[index].Some? && |nodes[index].value.extents| <= MAX_EXTENTS
        invariant nodes == WithExtents(old(nodes), index, nodes[index].value.extents)
        invariant Grow(Bitmap.Unpack(bitmap), geom, nodes[index].value.extents, remaining) == goal
      {
        GrowStep(Bitmap.Unpack(bitmap), geom, nodes[index].value.extents, remaining);
        var run := AllocRun(remaining);
        if run.None? {
          return false;
        }
        var (start, len) := run.value;
        var added := AddRun(index, start, len);
        if !added {
          return false;
        }
        remaining := remaining - len;
      }
      GrowDone(Bitmap.Unpack(bitmap), geom, nodes[index].value.extents);
      return true;
    }

    // ---- file data -------------------------------------------------------------------

    method ReadNode(index: nat, offset: nat, len: nat) returns (out: seq<u8>)
      requires index < MAX_NODES && nodes[index].Some? && Readable(device.blocks, nodes[index].value)
      ensures out == ReadBytes(device.blocks, nodes[index].value, offset, len)
    {
      hide Content, Blocks, OnDisk, Allocated, PhysicalBlock;
      var node := nodes[index].value;
      out := [];
      if offset >= node.size {
        return;
      }
      var length := Min(len, node.size - offset);
      ghost var all := Content(device.blocks, node);
      while |out| < length
        invariant |out| <= length && out == all[offset..offset + |out|]
      {
        var position := offset + |out|;
        var within := position % BLOCK_SIZE;
        var count := Min(length - |out|, BLOCK_SIZE - within);
        SectorPart(device.blocks, node, position, count);
        var physical := PhysicalBlock(node.extents, position / BLOCK_SIZE).value;
        assert all[offset..position + count] == all[offset..position] + all[position..position + count];
        out := out + device.blocks[physical][within..within + count];
      }
    }

    /** The sector loop: read-modify-write for partial sectors. */
    method WriteSectors(ext: seq<Extent>, offset: nat, input: seq<u8>)
      requires OnDisk(device.blocks, ext) && offset + |input| <= Allocated(ext) * BLOCK_SIZE
      modifies device
      ensures var ws := DataWrites(old(device.blocks), ext, offset, input, 0);
        device.log == old(device.log) + ws && device.blocks == Apply(old(device.blocks), ws)
    {
      hide Allocated, Apply, ApplyFirst, PhysicalBlock, DataWrites, OnDisk;
      ghost var all := DataWrites(device.blocks, ext, offset, input, 0);
      ghost var sent: seq<Write> := [];
      var done := 0;
      ApplyNone(device.blocks);
      while done < |input|
        invariant done <= |input| && OnDisk(device.blocks, ext) && |device.blocks| == old(|device.blocks|)
        invariant sent + DataWrites(device.blocks, ext, offset, input, done) == all
        invariant device.log == old(device.log) + sent && device.blocks == Apply(old(device.blocks), sent)
      {
        var position := offset + done;
        var within := position % BLOCK_SIZE;
        var count := Min(|input| - done, BLOCK_SIZE - within);
        PhysicalOnDisk(device.blocks, ext, position);
        var physical := PhysicalBlock(ext, position / BLOCK_SIZE).value;
        var sector: Block := if within != 0 || count != BLOCK_SIZE then device.blocks[physical] else Zeros(BLOCK_SIZE);
        sector := sector[..within] + input[done..done + count] + sector[within + count..];
        ghost var w := Write(physical, sector);
        SectorTurn(device.blocks, ext, offset, input, done, physical, sector);
        ghost var rest := DataWrites(Apply1(device.blocks, w), ext, offset, input, done + count);
        assert sent + ([w] + rest) == (sent + [w]) + rest;
        ApplySnoc(old(device.blocks), sent, w);
        device.WriteBlock(physical, sector);
        sent := sent + [w];
        done := done + count;
      }
      SectorsDone(device.blocks, ext, offset, input);
      assert sent + [] == sent;
    }

    method WriteNode(index: nat, offset: nat, input: seq<u8>, now: u64) returns (r: Outcome)
      requires Valid() && CanWrite(State(), index) && |device.blocks| == geom.totalBlocks
      modifies this`bitmap, this`nodes, this`dirty, device
      ensures Valid()
      ensures var m := FsOps.WriteNode(old(State()), index, offset, input, now);
        && State() == m.fs && r == m.result
        && (forall j | 0 <= j < |m.data| :: WriteFits(old(device.blocks), m.data[j]))
        && var ws := Expand(old(device.blocks), m.data, |m.data|);
           device.log == old(device.log) + ws && device.blocks == Apply(old(device.blocks), ws)
    {
      hide Bitmap.Unpack, UsedFits, FsAlloc.EnsureBlocks, DataWrites, Apply, Allocated, OnDisk;
      ApplyNone(device.blocks);
      if readOnly {
        return Err(PermissionDenied);
      }
      var end := offset + |input|;
      if end >= 0x1_0000_0000_0000_0000 {
        return Err(IoError);
      }
      EnsuredFits(State(), index, CeilDiv(end, BLOCK_SIZE));
      var ok := EnsureBlocks(index, CeilDiv(end, BLOCK_SIZE));
      if !ok {
        return Err(IoError);
      }
      var ext := nodes[index].value.extents;
      ExtentsOnDisk(geom, device.blocks, ext);
      ExpandOne(device.blocks, FileWrite(ext, offset, input));
      WriteSectors(ext, offset, input);
      nodes := nodes[index := Some(nodes[index].value.(size := Max(nodes[index].value.size, end), mtime := now))];
      dirty := true;
      return Ok(|input|, []);
    }

    // ---- commit ------------------------------------------------------------------------

    method WriteSlot(slot: nat, image: seq<u8>)
      requires |image| == geom.SlotBytes()
      modifies device
      ensures device.log == old(device.log) + SlotWrites(geom, slot, image)
      ensures device.blocks == Apply(old(device.blocks), SlotWrites(geom, slot, image))
    {
      hide Apply, ApplyFirst;
      ghost var ws := SlotWrites(geom, slot, image);
      ApplyNone(device.blocks);
      assert ws[..0] == [];
      for i := 0 to geom.slotBlocks
        invariant device.log == old(device.log) + ws[..i] && device.blocks == Apply(old(device.blocks), ws[..i])
      {
        var block: Block := image[i * BLOCK_SIZE..(i + 1) * BLOCK_SIZE];
        assert ws[..i + 1] == ws[..i] + [ws[i]];
        ApplySnoc(old(device.blocks), ws[..i], ws[i]);
        device.WriteBlock(geom.SlotStart(slot) + i, block);
      }
      assert ws[..geom.slotBlocks] == ws;
    }

    /** What a commit leaves and returns. */
    static ghost function AfterCommit(fs: Fs): Step
      requires GeomOk(fs.geom) && fs.activeSlot <= 1
      requires fs.dirty && !fs.readOnly ==> NodesOk(fs.geom, fs.nodes)
    {
      if !fs.dirty then Step(fs, [], DONE)
      else if fs.readOnly then Step(fs, [], Err(PermissionDenied))
      else Step(Committed(fs), CommitWrites(fs), DONE)
    }

    method Commit() returns (r: Outcome)
      requires Valid() && (dirty && !readOnly ==> NodesOk(geom, nodes))
      modifies this`generation, this`activeSlot, this`dirty, device
      ensures Valid()
      ensures var e := old(AfterCommit(State()));
        && State() == e.fs && r == e.result
        && device.log == old(device.log) + e.writes && device.blocks == Apply(old(device.blocks), e.writes)
    {
      hide Bitmap.Unpack, Bitmap.Pack, NodesOk, SlotWrites, Apply, EncodeSuper, Serialize;
      ApplyNone(device.blocks);
      if !dirty {
        return DONE;
      }
      if readOnly {
        return Err(PermissionDenied);
      }
      Bitmap.PackUnpack(bitmap);
      NodesFit(geom, nodes);
      ghost var fs := State();
      var image := Serialize(bitmap, nodes);
      assert image == Image(fs);
      var inactive := 1 - activeSlot;
      WriteSlot(inactive, image);
      var super := EncodeSuper(SuperBlock(generation + 1, inactive, Crc.Crc32(image)), geom);
      ghost var ws := SlotWrites(geom, inactive, image);
      ApplySnoc(old(device.blocks), ws, Write(0, super));
      ApplySnoc(old(device.blocks), ws + [Write(0, super)], Write(1, super));
      device.WriteBlock(0, super);
      device.WriteBlock(1, super);
      assert (ws + [Write(0, super)]) + [Write(1, super)] == ws + [Write(0, super), Write(1, super)];
      activeSlot, generation, dirty := inactive, generation + 1, false;
      return DONE;
    }

    // ---- calls ---------------------------------------------------------------------------

    /** The volume can serve `op` to its end. */
    ghost predicate Ready(op: Op)
      reads this, device
    {
      Valid() && Mounted(State(), device.blocks) && CanFinish(device.blocks, Mutate(State(), device.blocks, op))
    }

    method Create(path: Path, directory: bool, now: u64) returns (r: Outcome)
      requires Ready(FsOps.Create(path, directory, now))
      modifies this, device
      ensures Valid() && (old(Sound() && Serves(FsOps.Create(path, directory, now))) ==> Sound())
      ensures var e := old(Exec(State(), device.blocks, FsOps.Create(path, directory, now)));
        && State() == e.fs && r == e.result
        && device.log == old(device.log) + e.writes && device.blocks == Apply(old(device.blocks), e.writes)
      ensures FsAnswers.Answers(old(State()), old(device.blocks), FsOps.Create(path, directory, now), r)
    {
      hide FsAnswers.Answers, Apply, NodesOk, UsedFits, HandlesOk, Bitmap.Unpack, CommitWrites, Exec, WriteFits,
           InStep, Permitted;
      FsAnswers.MountedAnswers(State(), device.blocks, FsOps.Create(path, directory, now));
      Settle(FsOps.Create(path, directory, now));
      ApplyNone(device.blocks);
      ExecTable(State(), device.blocks, FsOps.Create(path, directory, now));
      var clean := Clean(path);
      if readOnly {
        return Err(PermissionDenied);
      }
      if |clean| == 0 || |clean| > PATH_SIZE || !ParentExists(nodes, clean) {
        return Err(InvalidPath);
      }
      if FindPath(nodes, clean, 0).Some? {
        return Err(AlreadyExists);
      }
      var index := FindFree(nodes, 0);
      if index.None? {
        return Err(IoError);
      }
      var mode := if directory then 0x1ed else 0x1a4;
      nodes := nodes[index.value := Some(Node(clean, if directory then Directory else File, mode, 0, now, now, []))];
      dirty := true;
      r := Commit();
    }

    method Remove(path: Path) returns (r: Outcome)
      requires Ready(FsOps.Remove(path))
      modifies this, device
      ensures Valid() && (old(Sound() && Serves(FsOps.Remove(path))) ==> Sound())
      ensures var e := old(Exec(State(), device.blocks, FsOps.Remove(path)));
        && State() == e.fs && r == e.result
        && device.log == old(device.log) + e.writes && device.blocks == Apply(old(device.blocks), e.writes)
      ensures FsAnswers.Answers(old(State()), old(device.blocks), FsOps.Remove(path), r)
    {
      hide FsAnswers.Answers, Apply, NodesOk, UsedFits, HandlesOk, Bitmap.Unpack, CommitWrites, ReleaseExtents,
           DropNode, Exec, WriteFits, InStep, Permitted;
      FsAnswers.MountedAnswers(State(), device.blocks, FsOps.Remove(path));
      Settle(FsOps.Remove(path));
      ApplyNone(device.blocks);
      ExecTable(State(), device.blocks, FsOps.Remove(path));
      if readOnly {
        return Err(PermissionDenied);
      }
      var index := NodeIndex(nodes, path);
      if index.None? {
        return Err(NotFound);
      }
      var i := index.value;
      if nodes[i].value.fileType != File {
        return Err(IsADirectory);
      }
      NodeCanWrite(State(), device.blocks, i);
      FreeExtents(i);
      nodes := nodes[i := None];
      handles := DropNode(handles, i);
      dirty := true;
      r := Commit();
    }

    method Truncate(path: Path, now: u64) returns (r: Outcome)
      requires Ready(FsOps.Truncate(path, now))
      modifies this, device
      ensures Valid() && (old(Sound() && Serves(FsOps.Truncate(path, now))) ==> Sound())
      ensures var e := old(Exec(State(), device.blocks, FsOps.Truncate(path, now)));
        && State() == e.fs && r == e.result
        && device.log == old(device.log) + e.writes && device.blocks == Apply(old(device.blocks), e.writes)
      ensures FsAnswers.Answers(old(State()), old(device.blocks), FsOps.Truncate(path, now), r)
    {
      hide FsAnswers.Answers, Apply, NodesOk, UsedFits, HandlesOk, Bitmap.Unpack, CommitWrites, ReleaseExtents,
           Exec, WriteFits, InStep, Permitted;
      FsAnswers.MountedAnswers(State(), device.blocks, FsOps.Truncate(path, now));
      Settle(FsOps.Truncate(path, now));
      ApplyNone(device.blocks);
      ExecTable(State(), device.blocks, FsOps.Truncate(path, now));
      if readOnly {
        return Err(PermissionDenied);
      }
      var index := NodeIndex(nodes, path);
      if index.None? {
        return Err(NotFound);
      }
      var i := index.value;
      if nodes[i].value.fileType != File {
        return Err(IsADirectory);
      }
      NodeCanWrite(State(), device.blocks, i);
      FreeExtents(i);
      nodes := nodes[i := Some(nodes[i].value.(size := 0, mtime := now))];
      dirty := true;
      r := Commit();
    }

    /** Descendants first get their new paths checked, then rewritten, then the
        source itself is renamed. */
    method Rename(src: Path, dst: Path, now: u64) returns (r: Outcome)
      requires Ready(FsOps.Rename(src, dst, now))
      modifies this, device
      ensures Valid() && (old(Sound() && Serves(FsOps.Rename(src, dst, now))) ==> Sound())
      ensures var e := old(Exec(State(), device.blocks, FsOps.Rename(src, dst, now)));
        && State() == e.fs && r == e.result
        && device.log == old(device.log) + e.writes && device.blocks == Apply(old(device.blocks), e.writes)
      ensures FsAnswers.Answers(old(State()), old(device.blocks), FsOps.Rename(src, dst, now), r)
    {
      hide FsAnswers.Answers, Apply, NodesOk, UsedFits, HandlesOk, Bitmap.Unpack, CommitWrites, Exec, WriteFits,
           Clean, RenamedNodes, Moved, InStep, Permitted;
      FsAnswers.MountedAnswers(State(), device.blocks, FsOps.Rename(src, dst, now));
      Settle(FsOps.Rename(src, dst, now));
      ApplyNone(device.blocks);
      ExecTable(State(), device.blocks, FsOps.Rename(src, dst, now));
      if readOnly {
        return Err(PermissionDenied);
      }
      var from, to := Clean(src), Clean(dst);
      var index := FindPath(nodes, from, 0);
      if index.None? {
        return Err(NotFound);
      }
      if |to| == 0 || |to| > PATH_SIZE {
        return Err(InvalidPath);
      }
      if FindPath(nodes, to, 0).Some? {
        return Err(AlreadyExists);
      }
      if !ParentExists(nodes, to) {
        return Err(InvalidPath);
      }
      if nodes[index.value].value.fileType == Directory {
        var fit := MovesChecked(from, to);
        if !fit {
          return Err(InvalidPath);
        }
      }
      RewritePaths(index.value, from, to, now);
      dirty := true;
      r := Commit();
    }

    method MovesChecked(src: Path, dst: Path) returns (fit: bool)
      ensures fit == MovesFit(nodes, src, dst)
    {
      for i := 0 to MAX_NODES
        invariant forall j | 0 <= j < i && nodes[j].Some? && src + [SLASH] <= nodes[j].value.path ::
          |Moved(nodes[j].value.path, src, dst)| <= PATH_SIZE
      {
        if nodes[i].Some? && src + [SLASH] <= nodes[i].value.path {
          if |dst + [SLASH] + nodes[i].value.path[|src| + 1..]| > PATH_SIZE {
            return false;
          }
        }
      }
      return true;
    }

    method RewritePaths(index: nat, src: Path, dst: Path, now: u64)
      requires index < MAX_NODES && nodes[index].Some?
      modifies this`nodes
      ensures nodes == RenamedNodes(old(nodes), index, src, dst, now)
    {
      var directory := nodes[index].value.fileType == Directory;
      if directory {
        for i := 0 to MAX_NODES
          invariant forall j | i <= j < MAX_NODES :: nodes[j] == old(nodes[j])
          invariant forall j | 0 <= j < i ::
            && nodes[j].Some? == old(nodes[j]).Some?
            && (nodes[j].Some? ==>
                 nodes[j].value == old(nodes[j]).value.(path := Moved(old(nodes[j]).value.path, src, dst)))
        {
          if nodes[i].Some? && src + [SLASH] <= nodes[i].value.path {
            var moved := dst + [SLASH] + nodes[i].value.path[|src| + 1..];
            nodes := nodes[i := Some(nodes[i].value.(path := moved))];
          }
        }
      }
      nodes := nodes[index := Some(nodes[index].value.(path := dst, mtime := now))];
    }

    method Read(handle: nat, len: nat) returns (r: Outcome)
      requires Ready(FsOps.Read(handle, len))
      modifies this, device
      ensures Valid() && (old(Sound() && Serves(FsOps.Read(handle, len))) ==> Sound())
      ensures var e := old(Exec(State(), device.blocks, FsOps.Read(handle, len)));
        && State() == e.fs && r == e.result
        && device.log == old(device.log) + e.writes && device.blocks == Apply(old(device.blocks), e.writes)
      ensures FsAnswers.Answers(old(State()), old(device.blocks), FsOps.Read(handle, len), r)
    {
      hide FsAnswers.Answers, Apply, NodesOk, UsedFits, Bitmap.Unpack, CommitWrites, Exec, WriteFits, Content,
           ReadBytes, InStep, Permitted;
      FsAnswers.MountedAnswers(State(), device.blocks, FsOps.Read(handle, len));
      Settle(FsOps.Read(handle, len));
      ApplyNone(device.blocks);
      ExecTable(State(), device.blocks, FsOps.Read(handle, len));
      var k := FindHandle(handles, handle, 0);
      if k.None? {
        return Err(InvalidDescriptor);
      }
      var h := handles[k.value];
      if !h.flags.read {
        return Err(PermissionDenied);
      }
      MountedReadable(State(), device.blocks, h.node);
      var out := ReadNode(h.node, h.offset, len);
      handles := handles[k.value := h.(offset := h.offset + |out|)];
      return Ok(|out|, out);
    }

    method Fsync(handle: nat) returns (r: Outcome)
      requires Ready(FsOps.Fsync(handle))
      modifies this, device
      ensures Valid() && (old(Sound() && Serves(FsOps.Fsync(handle))) ==> Sound())
      ensures var e := old(Exec(State(), device.blocks, FsOps.Fsync(handle)));
        && State() == e.fs && r == e.result
        && device.log == old(device.log) + e.writes && device.blocks == Apply(old(device.blocks), e.writes)
      ensures FsAnswers.Answers(old(State()), old(device.blocks), FsOps.Fsync(handle), r)
    {
      hide FsAnswers.Answers, Apply, NodesOk, UsedFits, Bitmap.Unpack, CommitWrites, Exec, WriteFits, InStep,
           Permitted;
      FsAnswers.MountedAnswers(State(), device.blocks, FsOps.Fsync(handle));
      Settle(FsOps.Fsync(handle));
      ApplyNone(device.blocks);
      ExecTable(State(), device.blocks, FsOps.Fsync(handle));
      if FindHandle(handles, handle, 0).None? {
        return Err(InvalidDescriptor);
      }
      r := Commit();
    }

    method Close(handle: nat) returns (r: Outcome)
      requires Ready(FsOps.Close(handle))
      modifies this, device
      ensures Valid() && (old(Sound() && Serves(FsOps.Close(handle))) ==> Sound())
      ensures var e := old(Exec(State(), device.blocks, FsOps.Close(handle)));
        && State() == e.fs && r == e.result
        && device.log == old(device.log) + e.writes && device.blocks == Apply(old(device.blocks), e.writes)
      ensures FsAnswers.Answers(old(State()), old(device.blocks), FsOps.Close(handle), r)
    {
      hide FsAnswers.Answers, Apply, NodesOk, UsedFits, Bitmap.Unpack, CommitWrites, Exec, WriteFits, InStep,
           Permitted;
      FsAnswers.MountedAnswers(State(), device.blocks, FsOps.Close(handle));
      Settle(FsOps.Close(handle));
      ApplyNone(device.blocks);
      ExecTable(State(), device.blocks, FsOps.Close(handle));
      var k := FindHandle(handles, handle, 0);
      if k.None? {
        return Err(InvalidDescriptor);
      }
      handles := handles[..k.value] + handles[k.value + 1..];
      r := Commit();
    }

    method WriteTo(handle: nat, input: seq<u8>, now: u64) returns (r: Outcome)
      requires Ready(FsOps.WriteTo(handle, input, now))
      modifies this, device
      ensures Valid() && (old(Sound() && Serves(FsOps.WriteTo(handle, input, now))) ==> Sound())
      ensures var e := old(Exec(State(), device.blocks, FsOps.WriteTo(handle, input, now)));
        && State() == e.fs && r == e.result
        && device.log == old(device.log) + e.writes && device.blocks == Apply(old(device.blocks), e.writes)
      ensures FsAnswers.Answers(old(State()), old(device.blocks), FsOps.WriteTo(handle, input, now), r)
    {
      hide FsAnswers.Answers, Apply, NodesOk, UsedFits, Bitmap.Unpack, CommitWrites, WriteFits, FsOps.WriteNode,
           Expand, CanWrite, Exec, InStep, Permitted;
      FsAnswers.MountedAnswers(State(), device.blocks, FsOps.WriteTo(handle, input, now));
      Settle(FsOps.WriteTo(handle, input, now));
      ApplyNone(device.blocks);
      MountedWritable(State(), device.blocks);
      WritePlain(State(), handle, input, now);
      ExecPlain(State(), device.blocks, FsOps.WriteTo(handle, input, now));
      var k := FindHandle(handles, handle, 0);
      if k.None? {
        return Err(InvalidDescriptor);
      }
      var h := handles[k.value];
      if !h.flags.write {
        return Err(PermissionDenied);
      }
      var offset := if h.flags.append then nodes[h.node].value.size else h.offset;
      r := WriteNode(h.node, offset, input, now);
      if r.Err? {
        return;
      }
      handles := handles[k.value := h.(offset := offset + |input|)];
    }

    /** The zero-extension loop; stops at the first write that fails. */
    method ZeroFill(index: nat, from: nat, amount: nat, now: u64) returns (r: Outcome)
      requires Valid() && CanWrite(State(), index) && |device.blocks| == geom.totalBlocks
      modifies this`bitmap, this`nodes, this`dirty, device
      ensures Valid()
      ensures var m := ZeroExtend(old(State()), index, from, amount, now);
        && State() == m.fs && r == m.result
        && (forall j | 0 <= j < |m.data| :: WriteFits(old(device.blocks), m.data[j]))
        && var ws := Expand(old(device.blocks), m.data, |m.data|);
           device.log == old(device.log) + ws && device.blocks == Apply(old(device.blocks), ws)
    {
      hide FsOps.WriteNode, Apply, Expand, WriteFits, CanWrite, Bitmap.Unpack, GeomOk, ZeroExtend, Zeros, ZeroSoFar;
      ghost var goal := ZeroExtend(State(), index, from, amount, now);
      ghost var sent: seq<FileWrite> := [];
      ZeroStart(State(), device.blocks, index, from, amount, now);
      var offset, remaining := from, amount;
      while remaining > 0
        invariant 0 <= remaining && Valid() && CanWrite(State(), index) && |device.blocks| == geom.totalBlocks
        invariant forall j | 0 <= j < |sent| :: WriteFits(old(device.blocks), sent[j])
        invariant ZeroSoFar(goal, old(device.blocks), State(), device.blocks, index, offset, remaining, now, sent)
        invariant device.log == old(device.log) + Expand(old(device.blocks), sent, |sent|)
      {
        var chunk := Min(remaining, BLOCK_SIZE);
        ghost var fs, disk := State(), device.blocks;
        r := WriteNode(index, offset, Zeros(chunk), now);
        ZeroAdvance(goal, old(device.blocks), fs, disk, index, offset, remaining, now, sent, device.blocks);
        sent := sent + FsOps.WriteNode(fs, index, offset, Zeros(chunk), now).data;
        if r.Err? {
          return;
        }
        offset, remaining := offset + chunk, remaining - chunk;
      }
      ZeroEnd(goal, old(device.blocks), State(), device.blocks, index, offset, now, sent);
      r := DONE;
    }

    method Resize(index: nat, target: u64, now: u64) returns (r: Outcome, publish: bool)
      requires Valid() && CanWrite(State(), index) && Readable(device.blocks, nodes[index].value)
      requires |device.blocks| == geom.totalBlocks
      modifies this`bitmap, this`nodes, this`dirty, device
      ensures Valid()
      ensures var m := FsOps.Resize(old(State()), old(device.blocks), index, target, now);
        && State() == m.fs && r == m.result && publish == m.publish
        && (forall j | 0 <= j < |m.data| :: WriteFits(old(device.blocks), m.data[j]))
        && var ws := Expand(old(device.blocks), m.data, |m.data|);
           device.log == old(device.log) + ws && device.blocks == Apply(old(device.blocks), ws)
    {
      hide FsOps.WriteNode, Apply, WriteFits, Bitmap.Unpack, GeomOk, ZeroExtend, ReadBytes, ReleaseExtents, UsedFits,
           Readable;
      ApplyNone(device.blocks);
      var cur := nodes[index].value.size;
      if target == cur {
        return DONE, false;
      }
      if target < cur {
        var keep := ReadNode(index, 0, target);
        ReadLength(device.blocks, nodes[index].value, target);
        ReleaseFits(geom, Bitmap.Unpack(bitmap), nodes[index].value.extents);
        FreeExtents(index);
        if keep != [] {
          WriteShape(State(), index, 0, keep, now);
          r := WriteNode(index, 0, keep, now);
          if r.Err? {
            return r, false;
          }
        }
        nodes := nodes[index := Some(nodes[index].value.(size := target, mtime := now))];
      } else {
        ZeroPlain(State(), index, cur, target - cur, now);
        r := ZeroFill(index, cur, target - cur, now);
        if r.Err? {
          return r, false;
        }
      }
      dirty := true;
      return DONE, true;
    }

    method Ftruncate(handle: nat, target: u64, now: u64) returns (r: Outcome)
      requires Ready(FsOps.Ftruncate(handle, target, now))
      modifies this, device
      ensures Valid() && (old(Sound() && Serves(FsOps.Ftruncate(handle, target, now))) ==> Sound())
      ensures var e := old(Exec(State(), device.blocks, FsOps.Ftruncate(handle, target, now)));
        && State() == e.fs && r == e.result
        && device.log == old(device.log) + e.writes && device.blocks == Apply(old(device.blocks), e.writes)
      ensures FsAnswers.Answers(old(State()), old(device.blocks), FsOps.Ftruncate(handle, target, now), r)
    {
      hide FsAnswers.Answers, Apply, NodesOk, UsedFits, Bitmap.Unpack, CommitWrites, WriteFits, Expand, CanWrite,
           Exec, FsOps.Resize, Readable, InStep, Permitted;
      FsAnswers.MountedAnswers(State(), device.blocks, FsOps.Ftruncate(handle, target, now));
      Settle(FsOps.Ftruncate(handle, target, now));
      ghost var fs, disk := State(), device.blocks;
      ApplyNone(disk);
      if readOnly {
        ExecPlain(fs, disk, FsOps.Ftruncate(handle, target, now));
        return Err(PermissionDenied);
      }
      var k := FindHandle(handles, handle, 0);
      if k.None? || !handles[k.value].flags.write {
        ExecPlain(fs, disk, FsOps.Ftruncate(handle, target, now));
        return if k.None? then Err(InvalidDescriptor) else Err(PermissionDenied);
      }
      var i := handles[k.value].node;
      NodeCanWrite(fs, disk, i);
      MountedReadable(fs, disk, i);
      ResizeShape(fs, disk, i, target, now);
      ExecFull(fs, disk, FsOps.Ftruncate(handle, target, now));
      var publish;
      r, publish := Resize(i, target, now);
      if publish {
        ghost var m := FsOps.Resize(fs, disk, i, target, now);
        r := Commit();
        ApplyConcat(disk, Expand(disk, m.data, |m.data|), AfterCommit(m.fs).writes);
      }
    }
  }

  lemma ResizeShape(fs: Fs, disk: Disk, i: nat, target: nat, now: u64)
    requires CanWrite(fs, i) && Readable(disk, fs.nodes[i].value)
    ensures var m := FsOps.Resize(fs, disk, i, target, now);
      m.fs.geom == fs.geom && m.fs.activeSlot == fs.activeSlot && (m.publish ==> m.result == DONE)
  {
    hide EnsureBlocks, ReadBytes, Readable, UsedFits;
    if fs.nodes[i].value.size < target {
      ZeroShape(fs, i, fs.nodes[i].value.size, target - fs.nodes[i].value.size, now);
    }
  }

  lemma {:induction false} ZeroShape(fs: Fs, i: nat, offset: nat, remaining: nat, now: u64)
    requires CanWrite(fs, i)
    ensures var m := ZeroExtend(fs, i, offset, remaining, now);
      m.fs.geom == fs.geom && m.fs.activeSlot == fs.activeSlot && !m.publish
    decreases remaining
  {
    hide EnsureBlocks, CanWrite;
    if remaining > 0 {
      var chunk := Min(remaining, BLOCK_SIZE);
      var m := FsOps.WriteNode(fs, i, offset, Zeros(chunk), now);
      if m.result.Ok? {
        WriteKeepsCanWrite(fs, i, offset, Zeros(chunk), now);
        ZeroShape(m.fs, i, offset + chunk, remaining - chunk, now);
      }
    }
  }

  lemma ReadLength(disk: Disk, n: Node, target: nat)
    requires Readable(disk, n) && target < n.size
    ensures |ReadBytes(disk, n, 0, target)| == target
  {
  }

  lemma WriteShape(fs: Fs, i: nat, offset: nat, input: seq<u8>, now: u64)
    requires CanWrite(fs, i)
    ensures !FsOps.WriteNode(fs, i, offset, input, now).publish
    ensures FsOps.WriteNode(fs, i, offset, input, now).fs.nodes[i].Some?
  {
  }

  /** `sent` has gone out and left `fs` and `disk`; what remains of `goal` is the
      extension still to do. */
  ghost predicate ZeroSoFar(goal: Mutation, start: Disk, fs: Fs, disk: Disk, i: nat, offset: nat, remaining: nat,
                            now: u64, sent: seq<FileWrite>)
  {
    && CanWrite(fs, i) && (forall j | 0 <= j < |sent| :: WriteFits(start, sent[j]))
    && disk == Apply(start, Expand(start, sent, |sent|))
    && var rest := ZeroExtend(fs, i, offset, remaining, now);
       goal == Mutation(rest.fs, sent + rest.data, rest.result, false)
  }

  lemma ZeroStart(fs: Fs, disk: Disk, i: nat, offset: nat, remaining: nat, now: u64)
    requires CanWrite(fs, i)
    ensures ZeroSoFar(ZeroExtend(fs, i, offset, remaining, now), disk, fs, disk, i, offset, remaining, now, [])
    ensures Expand(disk, [], 0) == []
  {
    hide CanWrite, FsOps.WriteNode;
    var goal := ZeroExtend(fs, i, offset, remaining, now);
    ZeroPlain(fs, i, offset, remaining, now);
    assert [] + goal.data == goal.data;
    assert Apply(disk, []) == disk;
  }

  lemma ZeroEnd(goal: Mutation, start: Disk, fs: Fs, disk: Disk, i: nat, offset: nat, now: u64, sent: seq<FileWrite>)
    requires ZeroSoFar(goal, start, fs, disk, i, offset, 0, now, sent)
    ensures goal == Mutation(fs, sent, DONE, false) && forall j | 0 <= j < |sent| :: WriteFits(start, sent[j])
    ensures disk == Apply(start, Expand(start, sent, |sent|))
  {
    hide CanWrite, FsOps.WriteNode;
    assert sent + [] == sent;
  }

  lemma ZeroAdvance(goal: Mutation, start: Disk, fs: Fs, disk: Disk, i: nat, offset: nat, remaining: nat, now: u64,
                    sent: seq<FileWrite>, disk': Disk)
    requires ZeroSoFar(goal, start, fs, disk, i, offset, remaining, now, sent) && remaining > 0
    requires var m := FsOps.WriteNode(fs, i, offset, Zeros(Min(remaining, BLOCK_SIZE)), now);
      && (forall j | 0 <= j < |m.data| :: WriteFits(disk, m.data[j]))
      && disk' == Apply(disk, Expand(disk, m.data, |m.data|))
    ensures var chunk := Min(remaining, BLOCK_SIZE); var m := FsOps.WriteNode(fs, i, offset, Zeros(chunk), now);
      var sent' := sent + m.data;
      && (forall j | 0 <= j < |sent'| :: WriteFits(start, sent'[j]))
      && Expand(start, sent', |sent'|) == Expand(start, sent, |sent|) + Expand(disk, m.data, |m.data|)
      && CanWrite(m.fs, i)
      && (m.result.Ok? ==> ZeroSoFar(goal, start, m.fs, disk', i, offset + chunk, remaining - chunk, now, sent'))
      && (m.result.Err? ==>
           && goal == Mutation(m.fs, sent', m.result, false)
           && disk' == Apply(start, Expand(start, sent', |sent'|)))
  {
    hide FsOps.WriteNode, Apply, Expand, WriteFits, CanWrite, ZeroExtend;
    var chunk := Min(remaining, BLOCK_SIZE);
    var m := FsOps.WriteNode(fs, i, offset, Zeros(chunk), now);
    WriteKeepsCanWrite(fs, i, offset, Zeros(chunk), now);
    ZeroTurn(fs, i, offset, remaining, now);
    SentMore(start, sent, disk, m);
    if m.result.Ok? {
      var rest := ZeroExtend(m.fs, i, offset + chunk, remaining - chunk, now).data;
      assert (sent + m.data) + rest == sent + (m.data + rest);
    } else {
      assert sent + m.data == sent + [];
    }
  }

  /** One turn of the zero-extension loop. */
  lemma ZeroTurn(fs: Fs, i: nat, offset: nat, remaining: nat, now: u64)
    requires CanWrite(fs, i) && remaining > 0
    requires CanWrite(FsOps.WriteNode(fs, i, offset, Zeros(Min(remaining, BLOCK_SIZE)), now).fs, i)
    ensures var chunk := Min(remaining, BLOCK_SIZE); var m := FsOps.WriteNode(fs, i, offset, Zeros(chunk), now);
      && (m.result.Err? ==>
            m.data == [] && ZeroExtend(fs, i, offset, remaining, now) == Mutation(m.fs, [], m.result, false))
      && (m.result.Ok? ==> var rest := ZeroExtend(m.fs, i, offset + chunk, remaining - chunk, now);
            ZeroExtend(fs, i, offset, remaining, now) == Mutation(rest.fs, m.data + rest.data, rest.result, false))
  {
  }

  lemma ZeroPlain(fs: Fs, i: nat, offset: nat, remaining: nat, now: u64)
    requires CanWrite(fs, i)
    ensures !ZeroExtend(fs, i, offset, remaining, now).publish
  {
  }

  /** File data sent after other file data. */
  lemma SentMore(disk: Disk, sent: seq<FileWrite>, disk1: Disk, m: Mutation)
    requires forall j | 0 <= j < |sent| :: WriteFits(disk, sent[j])
    requires disk1 == Apply(disk, Expand(disk, sent, |sent|))
    requires forall j | 0 <= j < |m.data| :: WriteFits(disk1, m.data[j])
    ensures forall j | 0 <= j < |sent + m.data| :: WriteFits(disk, (sent + m.data)[j])
    ensures Expand(disk, sent + m.data, |sent + m.data|) == Expand(disk, sent, |sent|) + Expand(disk1, m.data, |m.data|)
    ensures Apply(disk, Expand(disk, sent + m.data, |sent + m.data|)) == Apply(disk1, Expand(disk1, m.data, |m.data|))
  {
    hide Expand, Apply;
    assert forall j | 0 <= j < |sent + m.data| :: WriteFits(disk, (sent + m.data)[j]);
    ExpandConcat(disk, sent, m.data, |m.data|);
    ApplyConcat(disk, Expand(disk, sent, |sent|), Expand(disk1, m.data, |m.data|));
  }

  /** An operation without file data: its change, then its commit. */
  lemma ExecTable(fs: Fs, disk: Disk, op: Op)
    requires Mounted(fs, disk) && CanFinish(disk, Mutate(fs, disk, op)) && fs.activeSlot <= 1
    requires var m := Mutate(fs, disk, op);
      m.data == [] && m.fs.geom == fs.geom && m.fs.activeSlot == fs.activeSlot && (m.publish ==> m.result == DONE)
    ensures var m := Mutate(fs, disk, op);
      Exec(fs, disk, op) == if m.publish then DunitFs.AfterCommit(m.fs) else Step(m.fs, [], m.result)
  {
    hide Mutate, HandlesOk, UsedFits, WriteFits, CommitWrites, NodesOk;
    var m := Mutate(fs, disk, op);
    if m.publish && m.fs.dirty && !m.fs.readOnly {
      assert [] + CommitWrites(m.fs) == CommitWrites(m.fs);
    }
  }

  lemma MountedReadable(fs: Fs, disk: Disk, i: nat)
    requires Mounted(fs, disk) && i < MAX_NODES && fs.nodes[i].Some?
    ensures Readable(disk, fs.nodes[i].value)
  {
    NodeReadable(fs.geom, disk, fs.nodes[i].value);
  }

  lemma MountedWritable(fs: Fs, disk: Disk)
    requires Mounted(fs, disk)
    ensures forall i | 0 <= i < MAX_NODES && fs.nodes[i].Some? :: CanWrite(fs, i)
  {
    forall i | 0 <= i < MAX_NODES && fs.nodes[i].Some?
      ensures CanWrite(fs, i)
    {
      NodeCanWrite(fs, disk, i);
    }
  }

  /** An operation in full: its change, its file data, its commit. */
  lemma ExecFull(fs: Fs, disk: Disk, op: Op)
    requires Mounted(fs, disk) && CanFinish(disk, Mutate(fs, disk, op)) && fs.activeSlot <= 1
    requires var m := Mutate(fs, disk, op);
      m.fs.geom == fs.geom && m.fs.activeSlot == fs.activeSlot && (m.publish ==> m.result == DONE)
    ensures var m := Mutate(fs, disk, op); var ws := Expand(disk, m.data, |m.data|);
      Exec(fs, disk, op) ==
        if m.publish then var c := DunitFs.AfterCommit(m.fs); Step(c.fs, ws + c.writes, c.result)
        else Step(m.fs, ws, m.result)
  {
    hide Mutate, HandlesOk, UsedFits, WriteFits, CommitWrites, NodesOk, Expand;
    var m := Mutate(fs, disk, op);
    var ws := Expand(disk, m.data, |m.data|);
    assert ws + [] == ws;
  }

  lemma ExecPlain(fs: Fs, disk: Disk, op: Op)
    requires Mounted(fs, disk) && CanFinish(disk, Mutate(fs, disk, op)) && !Mutate(fs, disk, op).publish
    ensures var m := Mutate(fs, disk, op); Exec(fs, disk, op) == Step(m.fs, Expand(disk, m.data, |m.data|), m.result)
    ensures Mutate(fs, disk, op).data == [] ==> Exec(fs, disk, op).writes == []
  {
  }

  lemma WritePlain(fs: Fs, handle: nat, input: seq<u8>, now: u64)
    requires HandlesOk(fs) && forall i | 0 <= i < MAX_NODES && fs.nodes[i].Some? :: CanWrite(fs, i)
    ensures !DoWrite(fs, handle, input, now).publish
    ensures forall k | 0 <= k < |fs.handles| ::
      FsOps.WriteNode(fs, fs.handles[k].node, WriteOffset(fs, fs.handles[k]), input, now).fs.handles == fs.handles
  {
  }

  lemma NodeCanWrite(fs: Fs, disk: Disk, i: nat)
    requires Mounted(fs, disk) && i < MAX_NODES && fs.nodes[i].Some?
    ensures CanWrite(fs, i)
  {
    assert NodeOk(fs.geom, fs.nodes[i].value);
  }

  /** Where a stretch of a file inside one sector is found. */
  lemma SectorPart(disk: Disk, n: Node, position: nat, count: nat)
    requires Readable(disk, n) && position < n.size && position + count <= n.size
    requires position % BLOCK_SIZE + count <= BLOCK_SIZE
    ensures var physical := PhysicalBlock(n.extents, position / BLOCK_SIZE); var within := position % BLOCK_SIZE;
      && physical.Some? && physical.value < |disk|
      && disk[physical.value][within..within + count] == Content(disk, n)[position..position + count]
  {
    PhysicalIsIndex(n.extents, position / BLOCK_SIZE);
    forall q | position <= q < position + count
      ensures Content(disk, n)[q] ==
        disk[Blocks(n.extents)[position / BLOCK_SIZE]][position % BLOCK_SIZE + (q - position)]
    {
      assert q / BLOCK_SIZE == position / BLOCK_SIZE;
      assert q % BLOCK_SIZE == position % BLOCK_SIZE + (q - position);
    }
  }

  lemma NodesFit(g: Geometry, nodes: Nodes)
    requires NodesOk(g, nodes)
    ensures forall i | 0 <= i < MAX_NODES && nodes[i].Some? ::
      |nodes[i].value.path| <= PATH_SIZE && |nodes[i].value.extents| <= MAX_EXTENTS
  {
  }

  /** One turn of the sector loop. */
  lemma SectorTurn(disk: Disk, ext: seq<Extent>, offset: nat, input: seq<u8>, done: nat, physical: nat, sector: Block)
    requires OnDisk(disk, ext) && done < |input| && offset + |input| <= Allocated(ext) * BLOCK_SIZE
    requires var position := offset + done; var within := position % BLOCK_SIZE;
      var count := Min(|input| - done, BLOCK_SIZE - within);
      && PhysicalBlock(ext, position / BLOCK_SIZE) == Some(physical) && physical < |disk|
      && var base := if within != 0 || count != BLOCK_SIZE then disk[physical] else Zeros(BLOCK_SIZE);
         sector == base[..within] + input[done..done + count] + base[within + count..]
    ensures var w := Write(physical, sector);
      && OnDisk(Apply1(disk, w), ext)
      && DataWrites(disk, ext, offset, input, done)
      == [w] + DataWrites(Apply1(disk, w), ext, offset, input, done + SectorCount(offset, input, done))
  {
    hide PhysicalBlock, Allocated;
    PhysicalIsIndex(ext, (offset + done) / BLOCK_SIZE);
  }

  lemma SectorsDone(disk: Disk, ext: seq<Extent>, offset: nat, input: seq<u8>)
    requires OnDisk(disk, ext) && offset + |input| <= Allocated(ext) * BLOCK_SIZE
    ensures DataWrites(disk, ext, offset, input, |input|) == []
  {
  }

  lemma PhysicalOnDisk(disk: Disk, ext: seq<Extent>, p: nat)
    requires OnDisk(disk, ext) && p < Allocated(ext) * BLOCK_SIZE
    ensures PhysicalBlock(ext, p / BLOCK_SIZE).Some? && PhysicalBlock(ext, p / BLOCK_SIZE).value < |disk|
  {
    PhysicalIsIndex(ext, p / BLOCK_SIZE);
  }

  function WithExtents(nodes: Nodes, index: nat, ext: seq<Extent>): Nodes
    requires index < MAX_NODES && nodes[index].Some?
  {
    nodes[index := Some(nodes[index].value.(extents := ext))]
  }

  lemma GrowDone(used: set<nat>, g: Geometry, ext: seq<Extent>)
    requires g.dataStart <= g.totalBlocks
    ensures Grow(used, g, ext, 0) == Growth(true, used, ext)
  {
  }

  /** One turn of the growing loop. */
  lemma GrowStep(used: set<nat>, g: Geometry, ext: seq<Extent>, remaining: nat)
    requires g.dataStart <= g.totalBlocks && remaining > 0
    ensures var run := FsAlloc.AllocRun(used, g, remaining);
      match run
      case None => Grow(used, g, ext, remaining) == Growth(false, used, ext)
      case Some((start, len)) =>
        && 1 <= len <= remaining && start + len <= g.totalBlocks
        && Grow(used, g, ext, remaining) ==
             if |NextExtents(ext, start, len)| > MAX_EXTENTS then Growth(false, used, ext)
             else Grow(FsAlloc.MarkUsed(used, start, len), g, NextExtents(ext, start, len), remaining - len)
  {
    AllocRunIsFirstFit(used, g, remaining);
  }
}
