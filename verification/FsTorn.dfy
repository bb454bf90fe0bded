/** A crash inside a call that aims at a committed file: what the file reads as
    after the remount, when the call's own commit did not get through. */
module FsTorn {
  import opened Bytes
  import opened FsFormat
  import opened FsNode
  import opened FsAlloc
  import opened FsTree
  import opened FsOps
  import opened FsInv
  import opened FsData
  import opened FsStep
  import opened FsLoad
  import opened FsCrash
  import opened FsRuns
  import opened FsView
  import opened FsHistory
  import opened FsDurable

  // ---- a sector loop cut anywhere ------------------------------------------------------------

  lemma SplicedEmpty(disk: Disk, ext: seq<Extent>, offset: nat, input: seq<u8>, at: nat)
    requires OnDisk(disk, ext) && offset <= at <= offset + |input|
    ensures Spliced(disk, disk, ext, offset, input, at, at)
  {
  }

  /** Cut after `k` sectors, the loop has laid down a prefix of its bytes. */
  lemma {:induction false} LoopPrefix(disk: Disk, ext: seq<Extent>, offset: nat, input: seq<u8>, done: nat, k: nat)
    returns (hi: nat)
    requires OnDisk(disk, ext) && NoDup(Blocks(ext))
    requires done <= |input| && offset + |input| <= Allocated(ext) * BLOCK_SIZE
    requires k <= |DataWrites(disk, ext, offset, input, done)|
    ensures offset + done <= hi <= offset + |input|
    ensures Spliced(disk, ApplyFirst(disk, DataWrites(disk, ext, offset, input, done), k), ext, offset, input,
                    offset + done, hi)
    ensures k == |DataWrites(disk, ext, offset, input, done)| ==> hi == offset + |input|
    decreases |input| - done
  {
    hide NoDup, Allocated, SectorWrite, SectorCount, Spliced;
    if k == 0 {
      hi := offset + done;
      SplicedEmpty(disk, ext, offset, input, hi);
    } else {
      var w := SectorWrite(disk, ext, offset, input, done);
      var next := done + SectorCount(offset, input, done);
      var disk1 := Apply1(disk, w);
      var rest := DataWrites(disk1, ext, offset, input, next);
      SectorSplices(disk, ext, offset, input, done);
      hi := LoopPrefix(disk1, ext, offset, input, next, k - 1);
      assert Apply(disk, [w]) == disk1 by { ApplyOne(disk, w); }
      ApplyRest(disk, [w], rest, k - 1);
      SplicedTrans(disk, disk1, ApplyFirst(disk1, rest, k - 1), ext, offset, input, offset + done, offset + next, hi);
    }
  }

  lemma ApplyOne(disk: Disk, w: Write)
    ensures Apply(disk, [w]) == Apply1(disk, w)
  {
    assert ApplyFirst(disk, [w], 0) == disk;
  }

  /** `c` is `bytes` with `data` laid over it from `offset` up to `hi`. */
  ghost predicate PrefixLaid(bytes: seq<u8>, c: seq<u8>, offset: nat, data: seq<u8>, hi: nat) {
    && |c| == |bytes| && offset <= hi <= offset + |data|
    && forall q | 0 <= q < |c| :: c[q] == if offset <= q < hi then data[q - offset] else bytes[q]
  }

  /** What a splice through grown extents means for the file as it was. */
  lemma SplicedOld(disk: Disk, cut: Disk, n: Node, ext: seq<Extent>, offset: nat, data: seq<u8>, hi: nat)
    requires Readable(disk, n) && |cut| == |disk| && Blocks(n.extents) <= Blocks(ext)
    requires Spliced(disk, cut, ext, offset, data, offset, hi)
    ensures Readable(cut, n) && PrefixLaid(Content(disk, n), Content(cut, n), offset, data, hi)
  {
    forall q | 0 <= q < n.size
      ensures Content(cut, n)[q] == if offset <= q < hi then data[q - offset] else Content(disk, n)[q]
    {
      SameByte(disk, n.extents, ext, q);
      SameByte(cut, n.extents, ext, q);
    }
  }

  // ---- a call cut anywhere -------------------------------------------------------------------

  /** The commit's writes do not matter to file contents: the data writes decide. */
  lemma DataDecides(fs: Fs, disk: Disk, op: Op, n: Node, k: nat)
    requires FsOk(fs) && |disk| == fs.geom.totalBlocks && Permitted(fs, op) && NodeOk(fs.geom, n)
    requires Mounted(fs, disk) && CanFinish(disk, Mutate(fs, disk, op)) && k <= |Exec(fs, disk, op).writes|
    ensures var m := Mutate(fs, disk, op);
      var ws := Expand(disk, m.data, |m.data|);
      var cut, at := ApplyFirst(disk, Exec(fs, disk, op).writes, k), ApplyFirst(disk, ws, Min(k, |ws|));
      Readable(cut, n) && Readable(at, n) && Content(cut, n) == Content(at, n)
  {
    hide TreeOk, AllocOk, UsedFits, HandlesOk, Permitted, Mutate, Expand, CommitWrites, Content, Readable, DataFits,
         WriteFits, Blocks;
    OpWrites(fs, disk, op);
    var m := Mutate(fs, disk, op);
    var ws := Expand(disk, m.data, |m.data|);
    var tail := if Commits(m) then CommitWrites(m.fs) else [];
    NodeReadable(fs.geom, ApplyFirst(disk, ws, Min(k, |ws|)), n);
    if k <= |ws| {
      ApplyPrefix(disk, ws, tail, k);
    } else {
      CommitAside(m.fs, n.extents);
      ApplyRest(disk, ws, tail, k - |ws|);
      var j := k - |ws|;
      assert tail == tail[..j] + tail[j..];
      ApplyPrefix(Apply(disk, ws), tail[..j], tail[j..], j);
      UntouchedContent(Apply(disk, ws), tail[..j], n);
    }
  }

  /** The disk once the first `j` data blocks of a mutation are out. */
  ghost function CutData(disk: Disk, m: Mutation, j: nat): (d: Disk)
    requires (forall x | 0 <= x < |m.data| :: WriteFits(disk, m.data[x])) && j <= |Expand(disk, m.data, |m.data|)|
    ensures |d| == |disk|
  {
    ApplyFirst(disk, Expand(disk, m.data, |m.data|), j)
  }

  // ---- writes ----------------------------------------------------------------------------------

  /** A write cut anywhere has laid down a prefix of its bytes. */
  lemma WriteCut(fs: Fs, disk: Disk, t: nat, offset: nat, input: seq<u8>, now: u64, j: nat) returns (hi: nat)
    requires FsOk(fs) && CanWrite(fs, t) && fs.nodes[t].value.fileType == File && |disk| == fs.geom.totalBlocks
    requires var m := WriteNode(fs, t, offset, input, now);
      (forall x | 0 <= x < |m.data| :: WriteFits(disk, m.data[x])) && j <= |Expand(disk, m.data, |m.data|)|
    ensures var n, cut := fs.nodes[t].value, CutData(disk, WriteNode(fs, t, offset, input, now), j);
      Readable(disk, n) && Readable(cut, n) && PrefixLaid(Content(disk, n), Content(cut, n), offset, input, hi)
  {
    hide Content, Readable, TreeOk, UsedFits, HandlesOk, Exact, DataWrites, PrefixLaid, EnsureBlocks, ApplyFirst,
         Expand,
         WriteFits;
    var m := WriteNode(fs, t, offset, input, now);
    var n := fs.nodes[t].value;
    OkReadable(fs, disk);
    if m.data == [] {
      hi := offset;
      NothingOut(disk, m, j);
      NothingLaid(Content(disk, n), offset, input);
    } else {
      var ext := m.fs.nodes[t].value.extents;
      OkIsOkButSize(fs, t);
      WriteNodeOk(fs, t, offset, input, now);
      DeriveBounds(fs.geom);
      var added := EnsureCorrect(fs.used, fs.geom, n.extents, CeilDiv(offset + |input|, BLOCK_SIZE));
      ExtentsOnDisk(fs.geom, disk, ext);
      ExpandOne(disk, m.data[0]);
      assert NoDup(BlocksOf(m.fs.nodes, t));
      hi := LoopPrefix(disk, ext, offset, input, 0, j);
      SplicedOld(disk, CutData(disk, m, j), n, ext, offset, input, hi);
    }
  }

  lemma NothingOut(disk: Disk, m: Mutation, j: nat)
    requires m.data == [] && j <= |Expand(disk, m.data, |m.data|)|
    ensures CutData(disk, m, j) == disk
  {
  }

  lemma NothingLaid(bytes: seq<u8>, offset: nat, data: seq<u8>)
    ensures PrefixLaid(bytes, bytes, offset, data, offset)
  {
  }

  // ---- extensions --------------------------------------------------------------------------------

  /** Every write goes through the node's own blocks, past its size. */
  ghost predicate Beyond(data: seq<FileWrite>, n: Node) {
    forall d | 0 <= d < |data| ::
      n.size <= data[d].offset && Blocks(n.extents) <= Blocks(data[d].extents) && NoDup(Blocks(data[d].extents))
  }

  lemma {:induction false} BeyondKeeps(disk: Disk, data: seq<FileWrite>, d: nat, n: Node, j: nat)
    requires Readable(disk, n) && Beyond(data, n) && d <= |data|
    requires (forall x | 0 <= x < |data| :: WriteFits(disk, data[x])) && j <= |Expand(disk, data, d)|
    ensures var cut := ApplyFirst(disk, Expand(disk, data, d), j);
      Readable(cut, n) && Content(cut, n) == Content(disk, n)
    decreases d
  {
    hide Readable, Content, DataWrites, NoDup, Blocks, WriteFits;
    if d > 0 {
      var ws := Expand(disk, data, d - 1);
      var at, w := Apply(disk, ws), data[d - 1];
      FitsAnywhere(disk, at, w);
      var last := DataWrites(at, w.extents, w.offset, w.data, 0);
      if j <= |ws| {
        ApplyPrefix(disk, ws, last, j);
        BeyondKeeps(disk, data, d - 1, n, j);
      } else {
        ApplyRest(disk, ws, last, j - |ws|);
        BeyondKeeps(disk, data, d - 1, n, |ws|);
        LoopBeyond(at, w, n, j - |ws|);
      }
    }
  }

  lemma LoopBeyond(disk: Disk, w: FileWrite, n: Node, j: nat)
    requires Readable(disk, n) && Beyond([w], n) && WriteFits(disk, w)
    requires j <= |DataWrites(disk, w.extents, w.offset, w.data, 0)|
    ensures var cut := ApplyFirst(disk, DataWrites(disk, w.extents, w.offset, w.data, 0), j);
      Readable(cut, n) && Content(cut, n) == Content(disk, n)
  {
    hide DataWrites, Spliced, Allocated;
    assert [w][0] == w;
    var hi := LoopPrefix(disk, w.extents, w.offset, w.data, 0, j);
    SplicedOld(disk, ApplyFirst(disk, DataWrites(disk, w.extents, w.offset, w.data, 0), j), n, w.extents, w.offset,
               w.data, hi);
  }

  lemma {:induction false} ZeroBeyond(fs: Fs, t: nat, offset: nat, remaining: nat, now: u64, n: Node)
    requires FsOk(fs) && CanWrite(fs, t) && fs.nodes[t].value.fileType == File
    requires n.size <= offset && Blocks(n.extents) <= Blocks(fs.nodes[t].value.extents)
    ensures Beyond(ZeroExtend(fs, t, offset, remaining, now).data, n)
    decreases remaining
  {
    hide FsOk, OkButSize, WriteNode, NoDup, Blocks;
    if remaining > 0 {
      var chunk := Min(remaining, BLOCK_SIZE);
      var m := WriteNode(fs, t, offset, Zeros(chunk), now);
      WriteGrows(fs, t, offset, Zeros(chunk), now);
      ExtendOnce(fs, t, offset, Zeros(chunk), now);
      if m.result.Ok? {
        ZeroBeyond(m.fs, t, offset + chunk, remaining - chunk, now, n);
      }
    }
  }

  lemma WriteGrows(fs: Fs, t: nat, offset: nat, input: seq<u8>, now: u64)
    requires FsOk(fs) && CanWrite(fs, t) && fs.nodes[t].value.fileType == File
    ensures var m := WriteNode(fs, t, offset, input, now);
      && m.fs.nodes[t].Some? && Blocks(fs.nodes[t].value.extents) <= Blocks(m.fs.nodes[t].value.extents)
      && forall d | 0 <= d < |m.data| ::
           && m.data[d].offset == offset && m.data[d].extents == m.fs.nodes[t].value.extents
           && NoDup(Blocks(m.data[d].extents))
  {
    hide TreeOk, UsedFits, HandlesOk, Exact, EnsureBlocks;
    var n := fs.nodes[t].value;
    OkIsOkButSize(fs, t);
    WriteNodeOk(fs, t, offset, input, now);
    DeriveBounds(fs.geom);
    var added := EnsureCorrect(fs.used, fs.geom, n.extents, CeilDiv(offset + |input|, BLOCK_SIZE));
    assert NoDup(BlocksOf(WriteNode(fs, t, offset, input, now).fs.nodes, t));
  }

  // ---- every call but writes and shrinks ------------------------------------------------------------

  /** The call writes over bytes the file has: a write, or a shrink. */
  ghost predicate Rewrites(fs: Fs, op: Op, i: nat)
    requires i < MAX_NODES && fs.nodes[i].Some?
  {
    match op
    case WriteTo(handle, _, _) => Through(fs, handle, i)
    case Ftruncate(handle, target, _) => Through(fs, handle, i) && target < fs.nodes[i].value.size
    case _ => false
  }

  /** Cut anywhere, any other call leaves a file's bytes in its blocks, whether it
      aims at it or not. */
  lemma OtherCut(fs: Fs, disk: Disk, op: Op, i: nat, k: nat)
    requires FsOk(fs) && |disk| == fs.geom.totalBlocks && Permitted(fs, op)
    requires i < MAX_NODES && fs.nodes[i].Some? && !Rewrites(fs, op, i)
    requires Mounted(fs, disk) && CanFinish(disk, Mutate(fs, disk, op)) && k <= |Exec(fs, disk, op).writes|
    ensures var n, cut := fs.nodes[i].value, ApplyFirst(disk, Exec(fs, disk, op).writes, k);
      Readable(disk, n) && Readable(cut, n) && Content(cut, n) == Content(disk, n)
  {
    hide TreeOk, AllocOk, UsedFits, Mutate, Expand, Content, Readable, DataFits, WriteFits, Exec, Permitted, Beyond,
         ApplyFirst;
    if !Hits(fs, op, i) {
      CutKeeps(fs, disk, op, i, k);
    } else {
      var n, m := fs.nodes[i].value, Mutate(fs, disk, op);
      assert NodeOk(fs.geom, n);
      OkReadable(fs, disk);
      DataDecides(fs, disk, op, n, k);
      OtherBeyond(fs, disk, op, i);
      var ws := Expand(disk, m.data, |m.data|);
      BeyondKeeps(disk, m.data, |m.data|, n, Min(k, |ws|));
    }
  }

  lemma OtherBeyond(fs: Fs, disk: Disk, op: Op, i: nat)
    requires FsOk(fs) && Mounted(fs, disk) && i < MAX_NODES && fs.nodes[i].Some?
    requires Hits(fs, op, i) && !Rewrites(fs, op, i)
    ensures Beyond(Mutate(fs, disk, op).data, fs.nodes[i].value)
  {
    hide TreeOk, UsedFits, Exact, Disjoint, NodesOk, ZeroExtend, Shrink, ReadBytes, Clean, Beyond;
    NothingBeyond(fs.nodes[i].value);
    if op.Ftruncate? {
      var k := FindHandle(fs.handles, op.handle, 0);
      if fs.handles[k.value].flags.write && !fs.readOnly {
        var cur := fs.nodes[i].value.size;
        OkIsOkButSize(fs, i);
        ReadableNode(fs, disk, i);
        if op.target > cur {
          ZeroBeyond(fs, i, cur, op.target - cur, op.now, fs.nodes[i].value);
        }
      }
    }
  }

  lemma NothingBeyond(n: Node)
    ensures Beyond([], n)
  {
  }

  // ---- shrinks ------------------------------------------------------------------------------------

  /** The blocks the kept prefix moves to hold, wherever they were the file's
      already, the very bytes they are to get. */
  ghost predicate Harmless(bytes: seq<u8>, was: seq<nat>, now: seq<nat>, kept: nat) {
    forall l: nat, o: nat, r: nat | Moves(was, now, l, o) :: Alike(bytes, kept, l, o, r)
  }

  /** Byte `r` of logical block `l`, if it is kept, is that of block `o`. */
  ghost predicate Alike(bytes: seq<u8>, kept: nat, l: nat, o: nat, r: nat) {
    r < BLOCK_SIZE && l * BLOCK_SIZE + r < kept <= |bytes| && o * BLOCK_SIZE + r < |bytes| ==>
      bytes[l * BLOCK_SIZE + r] == bytes[o * BLOCK_SIZE + r]
  }

  /** Logical block `l` moves to where logical block `o` was. */
  ghost predicate Moves(was: seq<nat>, now: seq<nat>, l: nat, o: nat) {
    l < |now| && o < |was| && now[l] == was[o]
  }

  /** One byte of the file as it was, with the new blocks written up to `hi`. */
  lemma ShrunkByte(disk: Disk, cut: Disk, n: Node, ext: seq<Extent>, keep: seq<u8>, hi: nat, p: nat)
    requires Readable(disk, n) && |cut| == |disk| && Spliced(disk, cut, ext, 0, keep, 0, hi) && p < n.size
    requires forall b | 0 <= b < |disk| && b !in Blocks(ext) :: cut[b] == disk[b]
    requires |keep| <= Allocated(ext) * BLOCK_SIZE
    ensures Readable(cut, n)
    ensures Blocks(n.extents)[p / BLOCK_SIZE] !in Blocks(ext) ==> Content(cut, n)[p] == Content(disk, n)[p]
    ensures forall l: nat | Moves(Blocks(n.extents), Blocks(ext), l, p / BLOCK_SIZE) ::
      Content(cut, n)[p] ==
        var q := l * BLOCK_SIZE + p % BLOCK_SIZE; if q < hi then keep[q] else Content(disk, n)[p]
  {
    var b, r := Blocks(n.extents)[p / BLOCK_SIZE], p % BLOCK_SIZE;
    forall l: nat | Moves(Blocks(n.extents), Blocks(ext), l, p / BLOCK_SIZE)
      ensures Content(cut, n)[p] == var q := l * BLOCK_SIZE + r; if q < hi then keep[q] else Content(disk, n)[p]
    {
      var q := l * BLOCK_SIZE + r;
      assert q / BLOCK_SIZE == l && q % BLOCK_SIZE == r;
      assert ByteAt(cut, ext, q) == cut[b][r] && ByteAt(disk, ext, q) == disk[b][r];
    }
  }

  /** With the kept prefix written up to `hi`, a harmless move shows nothing. */
  lemma HarmlessKeeps(disk: Disk, cut: Disk, n: Node, ext: seq<Extent>, kept: nat, hi: nat)
    requires Readable(disk, n) && |cut| == |disk| && kept <= n.size && kept <= Allocated(ext) * BLOCK_SIZE
    requires Spliced(disk, cut, ext, 0, Content(disk, n)[..kept], 0, hi)
    requires forall b | 0 <= b < |disk| && b !in Blocks(ext) :: cut[b] == disk[b]
    requires Harmless(Content(disk, n), Blocks(n.extents), Blocks(ext), kept)
    ensures Readable(cut, n) && Content(cut, n) == Content(disk, n)
  {
    hide Spliced, Allocated, Content;
    var bytes := Content(disk, n);
    forall p | 0 <= p < n.size
      ensures Readable(cut, n) && Content(cut, n)[p] == bytes[p]
    {
      ShrunkByte(disk, cut, n, ext, bytes[..kept], hi, p);
      assert hi <= kept by { SplicedBound(disk, cut, ext, bytes[..kept], hi); }
      var o := p / BLOCK_SIZE;
      assert o < |Blocks(n.extents)| by { BlockOf(disk, n, p); }
      if Blocks(n.extents)[o] in Blocks(ext) {
        var l :| 0 <= l < |Blocks(ext)| && Blocks(ext)[l] == Blocks(n.extents)[o];
        assert Moves(Blocks(n.extents), Blocks(ext), l, o);
        assert Alike(bytes, kept, l, o, p % BLOCK_SIZE);
      }
    }
    assert Readable(cut, n) by { SameReadable(disk, cut, n); }
  }

  lemma SplicedBound(disk: Disk, cut: Disk, ext: seq<Extent>, keep: seq<u8>, hi: nat)
    requires Spliced(disk, cut, ext, 0, keep, 0, hi)
    ensures hi <= |keep|
  {
  }

  lemma SameReadable(disk: Disk, cut: Disk, n: Node)
    requires Readable(disk, n) && |cut| == |disk|
    ensures Readable(cut, n)
  {
  }

  lemma BlockOf(disk: Disk, n: Node, p: nat)
    requires Readable(disk, n) && p < n.size
    ensures p / BLOCK_SIZE < |Blocks(n.extents)|
  {
  }

  /** With all of it written, only a harmless move shows nothing. */
  lemma KeptHarmless(disk: Disk, cut: Disk, n: Node, ext: seq<Extent>, kept: nat)
    requires Readable(disk, n) && |cut| == |disk| && kept <= n.size && kept <= Allocated(ext) * BLOCK_SIZE
    requires Spliced(disk, cut, ext, 0, Content(disk, n)[..kept], 0, kept)
    requires forall b | 0 <= b < |disk| && b !in Blocks(ext) :: cut[b] == disk[b]
    requires Readable(cut, n) && Content(cut, n) == Content(disk, n)
    ensures Harmless(Content(disk, n), Blocks(n.extents), Blocks(ext), kept)
  {
    hide Spliced, Allocated, Content;
    var bytes, was, now := Content(disk, n), Blocks(n.extents), Blocks(ext);
    forall l: nat, o: nat, r: nat | Moves(was, now, l, o)
      ensures Alike(bytes, kept, l, o, r)
    {
      var p := o * BLOCK_SIZE + r;
      if r < BLOCK_SIZE && l * BLOCK_SIZE + r < kept && p < |bytes| {
        assert p / BLOCK_SIZE == o && p % BLOCK_SIZE == r;
        ShrunkByte(disk, cut, n, ext, bytes[..kept], kept, p);
      }
    }
  }

  /** A node reads as `bytes` on a disk. */
  ghost predicate Reads(disk: Disk, n: Node, bytes: seq<u8>) { Readable(disk, n) && Content(disk, n) == bytes }

  /** The extents that the prefix of a shrunk file gets. */
  function KeptExtents(fs: Fs, t: nat, kept: nat): seq<Extent>
    requires t < MAX_NODES && fs.nodes[t].Some? && fs.geom.dataStart <= fs.geom.totalBlocks
  {
    EnsureBlocks(ReleaseExtents(fs.used, fs.nodes[t].value.extents), fs.geom, [], CeilDiv(kept, BLOCK_SIZE)).extents
  }

  /** A shrink that goes through writes the kept prefix through these extents. */
  lemma ShrinkWrites(fs: Fs, t: nat, keep: seq<u8>, now: u64)
    requires FsOk(fs) && CanWrite(fs, t) && fs.nodes[t].value.fileType == File && keep != []
    requires Shrink(fs, t, keep, now).result.Ok?
    ensures fs.geom.dataStart <= fs.geom.totalBlocks
    ensures var m, ext := Shrink(fs, t, keep, now), KeptExtents(fs, t, |keep|);
      && m.data == [FileWrite(ext, 0, keep)] && NoDup(Blocks(ext)) && |keep| <= Allocated(ext) * BLOCK_SIZE
      && forall k | 0 <= k < |ext| :: ExtentOk(fs.geom, ext[k])
  {
    hide TreeOk, UsedFits, HandlesOk, Exact, EnsureBlocks;
    DeriveBounds(fs.geom);
    var freed := Release(fs, t);
    ReleasedOk(fs, t);
    WriteNodeOk(freed, t, 0, keep, now);
    EnsuredFits(freed, t, CeilDiv(|keep|, BLOCK_SIZE));
    assert NoDup(BlocksOf(WriteNode(freed, t, 0, keep, now).fs.nodes, t));
  }

  /** Cut before its commit, a shrink shows the file as it was, at every cut, if
      and only if the kept blocks move harmlessly. */
  lemma ShrinkCutIff(fs: Fs, disk: Disk, t: nat, kept: nat, now: u64)
    requires FsOk(fs) && CanWrite(fs, t) && fs.nodes[t].value.fileType == File && |disk| == fs.geom.totalBlocks
    requires Readable(disk, fs.nodes[t].value) && kept < fs.nodes[t].value.size
    requires fs.geom.dataStart <= fs.geom.totalBlocks
    requires var m := Shrink(fs, t, Content(disk, fs.nodes[t].value)[..kept], now);
      m.result.Ok? && forall x | 0 <= x < |m.data| :: WriteFits(disk, m.data[x])
    ensures var n := fs.nodes[t].value;
      var m, bytes := Shrink(fs, t, Content(disk, n)[..kept], now), Content(disk, n);
      (forall j: nat | j <= |Expand(disk, m.data, |m.data|)| :: Reads(CutData(disk, m, j), n, bytes)) <==>
        Harmless(bytes, Blocks(n.extents), Blocks(KeptExtents(fs, t, kept)), kept)
  {
    hide FsOk, Readable, Content, Shrink, KeptExtents, Harmless, Spliced, DataWrites, NoDup, Allocated, WriteFits;
    var n := fs.nodes[t].value;
    var bytes := Content(disk, n);
    var m, keep := Shrink(fs, t, bytes[..kept], now), bytes[..kept];
    if kept == 0 {
      assert m.data == [] by { EmptyShrink(fs, t, now); assert keep == []; }
      NothingKept(bytes, Blocks(n.extents), Blocks(KeptExtents(fs, t, kept)));
    } else {
      ShrinkWrites(fs, t, keep, now);
      var ext := KeptExtents(fs, t, kept);
      ExtentsOnDisk(fs.geom, disk, ext);
      ExpandOne(disk, m.data[0]);
      var ws := DataWrites(disk, ext, 0, keep, 0);
      if Harmless(bytes, Blocks(n.extents), Blocks(ext), kept) {
        forall j: nat | j <= |ws|
          ensures Reads(CutData(disk, m, j), n, bytes)
        {
          var hi := LoopPrefix(disk, ext, 0, keep, 0, j);
          LoopFrame(disk, ext, keep, j);
          HarmlessKeeps(disk, CutData(disk, m, j), n, ext, kept, hi);
        }
      }
      if Reads(CutData(disk, m, |ws|), n, bytes) {
        var hi := LoopPrefix(disk, ext, 0, keep, 0, |ws|);
        LoopFrame(disk, ext, keep, |ws|);
        KeptHarmless(disk, CutData(disk, m, |ws|), n, ext, kept);
      }
    }
  }

  lemma EmptyShrink(fs: Fs, t: nat, now: u64)
    requires CanWrite(fs, t)
    ensures Shrink(fs, t, [], now).data == []
  {
  }

  lemma NothingKept(bytes: seq<u8>, was: seq<nat>, now: seq<nat>)
    ensures Harmless(bytes, was, now, 0)
  {
  }

  /** A cut loop leaves every block but the file's new ones. */
  lemma LoopFrame(disk: Disk, ext: seq<Extent>, keep: seq<u8>, j: nat)
    requires OnDisk(disk, ext) && |keep| <= Allocated(ext) * BLOCK_SIZE && j <= |DataWrites(disk, ext, 0, keep, 0)|
    ensures forall b | 0 <= b < |disk| && b !in Blocks(ext) ::
      ApplyFirst(disk, DataWrites(disk, ext, 0, keep, 0), j)[b] == disk[b]
  {
    hide DataWrites, Allocated;
    LoopTargets(disk, ext, 0, keep, 0);
    forall b | 0 <= b < |disk| && b !in Blocks(ext)
      ensures ApplyFirst(disk, DataWrites(disk, ext, 0, keep, 0), j)[b] == disk[b]
    {
      ApplyFrame(disk, DataWrites(disk, ext, 0, keep, 0), j, b);
    }
  }

  // ---- in every history -----------------------------------------------------------------------------

  /** A crash inside any call but a write or a shrink of the file: if the remount
      still has the committed entry, the file reads as at its commit. */
  lemma CrashKeeps(s: State, op: Op, k: nat, i: nat, n: Node, bytes: seq<u8>)
    requires Sound(s) && CanTake(s, CrashIn(op, k)) && Settled(s, i, n, bytes) && !Rewrites(s.mount.fs, op, i)
    ensures var s' := Take(s, CrashIn(op, k)); s'.saved.nodes[i] == Some(n) ==> Settled(s', i, n, bytes)
  {
    hide FsOk, Stands, Publishable, Mutate, Mounted, Expand, ApplyFirst, Permitted, CommitWrites, SuperOf, ImageOf,
         DataFits, Content, Readable, Rewrites, Load, WriteFits;
    OpWrites(s.mount.fs, s.disk, op);
    OtherCut(s.mount.fs, s.disk, op, i, k);
    CrashAnywhere(s.disk, s.mount.fs, s.saved, op, k);
  }

  /** A crash inside a write: the remounted file is the committed one with a
      prefix of the write's bytes over it, so outside the written range it reads
      as at the commit. */
  lemma WriteTorn(s: State, handle: nat, data: seq<u8>, now: u64, k: nat, i: nat, n: Node, bytes: seq<u8>)
    returns (hi: nat)
    requires Sound(s) && CanTake(s, CrashIn(WriteTo(handle, data, now), k)) && Settled(s, i, n, bytes)
    requires Through(s.mount.fs, handle, i)
    ensures var s' := Take(s, CrashIn(WriteTo(handle, data, now), k));
      var h := s.mount.fs.handles[FindHandle(s.mount.fs.handles, handle, 0).value];
      && s'.saved == s.saved && s'.mount.fs.nodes[i] == Some(n) && Readable(s'.disk, n)
      && PrefixLaid(bytes, Content(s'.disk, n), WriteOffset(s.mount.fs, h), data, hi)
  {
    hide Stands, Publishable, Expand, ApplyFirst, Permitted, CommitWrites, SuperOf, ImageOf, DataFits, Content,
         Readable,
         Load, WriteFits, NodesOk, TreeOk, AllocOk, UsedFits, WriteNode, PrefixLaid;
    var fs, op := s.mount.fs, WriteTo(handle, data, now);
    OpWrites(fs, s.disk, op);
    var h := fs.handles[FindHandle(fs.handles, handle, 0).value];
    CrashAnywhere(s.disk, fs, s.saved, op, k);
    OkIsOkButSize(fs, i);
    var w := WriteNode(fs, i, WriteOffset(fs, h), data, now);
    WritePublishes(fs, i, WriteOffset(fs, h), data, now);
    if h.flags.write {
      assert Mutate(fs, s.disk, op).data == w.data;
      hi := WriteCut(fs, s.disk, i, WriteOffset(fs, h), data, now, k);
      assert CutData(s.disk, w, k) == ApplyFirst(s.disk, Exec(fs, s.disk, op).writes, k);
    } else {
      hi := WriteOffset(fs, h);
      NothingLaid(bytes, hi, data);
      NothingOut(s.disk, Mutate(fs, s.disk, op), k);
    }
  }

  lemma WritePublishes(fs: Fs, t: nat, offset: nat, input: seq<u8>, now: u64)
    requires CanWrite(fs, t)
    ensures !WriteNode(fs, t, offset, input, now).publish
  {
  }

  /** A crash after `k` block writes of the call, if its commit did not get
      through, shows the committed file. */
  ghost predicate ShownAt(s: State, op: Op, k: nat, i: nat, n: Node, bytes: seq<u8>)
    requires Sound(s)
  {
    CanTake(s, CrashIn(op, k)) && Take(s, CrashIn(op, k)).saved == s.saved ==>
      Settled(Take(s, CrashIn(op, k)), i, n, bytes)
  }

  /** Otherwise the remount has the committed entry with other bytes. */
  lemma TornShows(s: State, op: Op, k: nat, i: nat, n: Node, bytes: seq<u8>)
    requires Sound(s) && Settled(s, i, n, bytes) && !ShownAt(s, op, k, i, n, bytes)
    ensures CanTake(s, CrashIn(op, k))
    ensures var s' := Take(s, CrashIn(op, k));
      && s'.saved == s.saved && s'.mount.fs.nodes[i] == Some(n) && Readable(s'.disk, n) && Content(s'.disk, n) != bytes
  {
    hide FsOk, Stands, Publishable, Mutate, Mounted, Expand, ApplyFirst, Permitted, CommitWrites, SuperOf, ImageOf,
         DataFits, Content, Load, WriteFits;
    OpWrites(s.mount.fs, s.disk, op);
    CrashAnywhere(s.disk, s.mount.fs, s.saved, op, k);
  }

  /** It does so exactly if the data blocks written so far do. */
  lemma ShownBy(s: State, op: Op, k: nat, i: nat, n: Node, bytes: seq<u8>)
    requires Sound(s) && CanTake(s, CrashIn(op, k)) && Settled(s, i, n, bytes)
    requires Mounted(s.mount.fs, s.disk) && CanFinish(s.disk, Mutate(s.mount.fs, s.disk, op))
    requires Take(s, CrashIn(op, k)).saved == s.saved
    ensures var m := Mutate(s.mount.fs, s.disk, op);
      var ws := Expand(s.disk, m.data, |m.data|);
      ShownAt(s, op, k, i, n, bytes) <==> Reads(CutData(s.disk, m, Min(k, |ws|)), n, bytes)
  {
    hide Stands, Mutate, Mounted, Expand, ApplyFirst, Permitted, CommitWrites, SuperOf, ImageOf, DataFits, Content,
         Readable, Load, WriteFits, TreeOk, AllocOk, UsedFits, HandlesOk;
    var fs := s.mount.fs;
    OpWrites(fs, s.disk, op);
    CrashAnywhere(s.disk, fs, s.saved, op, k);
    assert NodeOk(fs.geom, n);
    DataDecides(fs, s.disk, op, n, k);
  }

  /** A crash inside a shrink, wherever it falls before the commit, shows the
      committed file if and only if the kept blocks move harmlessly. */
  lemma ShrinkTornIff(s: State, handle: nat, target: u64, now: u64, i: nat, n: Node, bytes: seq<u8>)
    requires Sound(s) && CanTake(s, Call(Ftruncate(handle, target, now))) && Settled(s, i, n, bytes)
    requires Through(s.mount.fs, handle, i) && target < n.size && !s.mount.fs.readOnly
    requires s.mount.fs.handles[FindHandle(s.mount.fs.handles, handle, 0).value].flags.write
    ensures s.mount.fs.geom.dataStart <= s.mount.fs.geom.totalBlocks
    ensures (forall k: nat :: ShownAt(s, Ftruncate(handle, target, now), k, i, n, bytes)) <==>
      Harmless(bytes, Blocks(n.extents), Blocks(KeptExtents(s.mount.fs, i, target)), target)
  {
    hide InStep, Take, ShownAt, Content, Readable, Harmless, KeptExtents, Expand, ApplyFirst, WriteFits, CanFinish,
         Exec;
    var fs, op := s.mount.fs, Ftruncate(handle, target, now);
    ShrinkRuns(s, handle, target, now, i, n, bytes);
    var m := Mutate(fs, s.disk, op);
    var ws := Expand(s.disk, m.data, |m.data|);
    ShrinkCutIff(fs, s.disk, i, target, now);
    if forall k: nat :: ShownAt(s, op, k, i, n, bytes) {
      forall j: nat | j <= |ws|
        ensures Reads(CutData(s.disk, m, j), n, bytes)
      {
        assert CanTake(s, CrashIn(op, j));
        assert ShownAt(s, op, j, i, n, bytes);
        ShownBy(s, op, j, i, n, bytes);
      }
    }
    if forall j: nat | j <= |ws| :: Reads(CutData(s.disk, m, j), n, bytes) {
      forall k: nat
        ensures ShownAt(s, op, k, i, n, bytes)
      {
        if CanTake(s, CrashIn(op, k)) && Take(s, CrashIn(op, k)).saved == s.saved {
          ShownBy(s, op, k, i, n, bytes);
        } else {
          NotShown(s, op, k, i, n, bytes);
        }
      }
    }
  }

  lemma NotShown(s: State, op: Op, k: nat, i: nat, n: Node, bytes: seq<u8>)
    requires Sound(s) && !(CanTake(s, CrashIn(op, k)) && Take(s, CrashIn(op, k)).saved == s.saved)
    ensures ShownAt(s, op, k, i, n, bytes)
  {
  }

  /** A permitted shrink is the value-level one, and goes through. */
  lemma ShrinkRuns(s: State, handle: nat, target: u64, now: u64, i: nat, n: Node, bytes: seq<u8>)
    requires Sound(s) && CanTake(s, Call(Ftruncate(handle, target, now))) && Settled(s, i, n, bytes)
    requires Through(s.mount.fs, handle, i) && target < n.size && !s.mount.fs.readOnly
    requires s.mount.fs.handles[FindHandle(s.mount.fs.handles, handle, 0).value].flags.write
    ensures var fs, op := s.mount.fs, Ftruncate(handle, target, now);
      && FsOk(fs) && |s.disk| == fs.geom.totalBlocks && fs.geom.dataStart <= fs.geom.totalBlocks
      && Mounted(fs, s.disk) && CanFinish(s.disk, Mutate(fs, s.disk, op)) && CanWrite(fs, i)
      && i < MAX_NODES && fs.nodes[i] == Some(n) && n.fileType == File && Readable(s.disk, n)
      && Content(s.disk, n) == bytes && |bytes| == n.size
      && Mutate(fs, s.disk, op) == Shrink(fs, i, bytes[..target], now) && Mutate(fs, s.disk, op).result.Ok?
      && (forall k: nat | k <= |Expand(s.disk, Mutate(fs, s.disk, op).data, |Mutate(fs, s.disk, op).data|)| ::
            CanTake(s, CrashIn(op, k)) && k <= |Exec(fs, s.disk, op).writes|)
      && (forall x | 0 <= x < |Mutate(fs, s.disk, op).data| :: WriteFits(s.disk, Mutate(fs, s.disk, op).data[x]))
      && (forall k: nat | k <= |Expand(s.disk, Mutate(fs, s.disk, op).data, |Mutate(fs, s.disk, op).data|)| ::
            CanTake(s, CrashIn(op, k)) ==> Take(s, CrashIn(op, k)).saved == s.saved)
  {
    hide Stands, Publishable, Expand, ApplyFirst, CommitWrites, SuperOf, ImageOf, DataFits, Content, Readable, Load,
         WriteFits, TreeOk, AllocOk, UsedFits, Shrink, ShrinkFits, ReadBytes;
    var fs, op := s.mount.fs, Ftruncate(handle, target, now);
    OpWrites(fs, s.disk, op);
    OkIsOkButSize(fs, i);
    DeriveBounds(fs.geom);
    ReadsPrefix(s.disk, n, target);
    ShrinkIff(fs, i, bytes[..target], now);
  }

  lemma ReadsPrefix(disk: Disk, n: Node, target: nat)
    requires Readable(disk, n) && target <= n.size
    ensures ReadBytes(disk, n, 0, target) == Content(disk, n)[..target]
  {
  }
}
