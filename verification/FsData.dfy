/** What the sector loop does to file bytes: a write splices its input into one
    file and leaves every other byte and every other block alone. */
module FsData {
  import opened Bytes
  import opened FsFormat
  import opened FsNode
  import opened FsAlloc
  import opened FsOps

  /** A sector patched with `patch` at `within`, byte by byte. */
  lemma PatchedSector(sector: seq<u8>, within: nat, patch: seq<u8>, q: nat)
    requires within + |patch| <= |sector| && q < |sector|
    ensures var r := sector[..within] + patch + sector[within + |patch|..];
      |r| == |sector| && r[q] == if within <= q < within + |patch| then patch[q - within] else sector[q]
  {
  }

  /** One sector of the loop: the bytes of `input` it covers are in place, all
      other bytes of the file are as before. */
  lemma SectorBytes(disk: Disk, ext: seq<Extent>, offset: nat, input: seq<u8>, done: nat, p: nat)
    requires OnDisk(disk, ext) && NoDup(Blocks(ext))
    requires done < |input| && offset + |input| <= Allocated(ext) * BLOCK_SIZE && p < Allocated(ext) * BLOCK_SIZE
    ensures var w := SectorWrite(disk, ext, offset, input, done);
      var c := SectorCount(offset, input, done);
      ByteAt(Apply1(disk, w), ext, p)
      == if offset + done <= p < offset + done + c then input[p - offset] else ByteAt(disk, ext, p)
  {
    var w := SectorWrite(disk, ext, offset, input, done);
    var c := SectorCount(offset, input, done);
    var position := offset + done;
    var within := position % BLOCK_SIZE;
    var l := position / BLOCK_SIZE;
    if p / BLOCK_SIZE == l {
      var q := p % BLOCK_SIZE;
      assert p - position == q - within;
      assert Apply1(disk, w)[w.lba] == w.data;
      var sector: Block := if within != 0 || c != BLOCK_SIZE then disk[w.lba] else Zeros(BLOCK_SIZE);
      PatchedSector(sector, within, input[done..done + c], q);
    } else {
      NoDupAt(Blocks(ext), |Blocks(ext)|, Min(p / BLOCK_SIZE, l), Max(p / BLOCK_SIZE, l));
    }
  }

  /** `disk'` differs from `disk`, within the file, only at positions
      `[lo, hi)`, which hold the bytes of `input`. */
  ghost predicate Spliced(disk: Disk, disk': Disk, ext: seq<Extent>, offset: nat, input: seq<u8>, lo: nat, hi: nat) {
    && OnDisk(disk, ext) && OnDisk(disk', ext) && offset <= lo <= hi <= offset + |input|
    && forall p | 0 <= p < Allocated(ext) * BLOCK_SIZE ::
         ByteAt(disk', ext, p) == if lo <= p < hi then input[p - offset] else ByteAt(disk, ext, p)
  }

  lemma SplicedNone(disk: Disk, ext: seq<Extent>, offset: nat, input: seq<u8>)
    requires OnDisk(disk, ext)
    ensures Spliced(disk, disk, ext, offset, input, offset + |input|, offset + |input|)
  {
  }

  lemma SplicedTrans(d0: Disk, d1: Disk, d2: Disk, ext: seq<Extent>, offset: nat, input: seq<u8>, lo: nat, mid: nat,
                     hi: nat)
    requires Spliced(d0, d1, ext, offset, input, lo, mid) && Spliced(d1, d2, ext, offset, input, mid, hi)
    ensures Spliced(d0, d2, ext, offset, input, lo, hi)
  {
  }

  lemma SectorSplices(disk: Disk, ext: seq<Extent>, offset: nat, input: seq<u8>, done: nat)
    requires OnDisk(disk, ext) && NoDup(Blocks(ext))
    requires done < |input| && offset + |input| <= Allocated(ext) * BLOCK_SIZE
    ensures Spliced(disk, Apply1(disk, SectorWrite(disk, ext, offset, input, done)), ext, offset, input,
                    offset + done, offset + done + SectorCount(offset, input, done))
  {
    forall p | 0 <= p < Allocated(ext) * BLOCK_SIZE
      ensures ByteAt(Apply1(disk, SectorWrite(disk, ext, offset, input, done)), ext, p)
        == if offset + done <= p < offset + done + SectorCount(offset, input, done)
           then input[p - offset] else ByteAt(disk, ext, p)
    {
      SectorBytes(disk, ext, offset, input, done, p);
    }
  }

  lemma {:induction false} LoopSplices(disk: Disk, ext: seq<Extent>, offset: nat, input: seq<u8>, done: nat)
    requires OnDisk(disk, ext) && NoDup(Blocks(ext))
    requires done <= |input| && offset + |input| <= Allocated(ext) * BLOCK_SIZE
    ensures Spliced(disk, Apply(disk, DataWrites(disk, ext, offset, input, done)), ext, offset, input,
                    offset + done, offset + |input|)
    decreases |input| - done
  {
    hide NoDup, Allocated, SectorWrite, SectorCount, Spliced;
    var disk' := Apply(disk, DataWrites(disk, ext, offset, input, done));
    if done == |input| {
      SplicedNone(disk, ext, offset, input);
    } else {
      var w := SectorWrite(disk, ext, offset, input, done);
      var next := done + SectorCount(offset, input, done);
      var disk1 := Apply1(disk, w);
      ApplyCons(disk, w, DataWrites(disk1, ext, offset, input, next));
      assert disk' == Apply(disk1, DataWrites(disk1, ext, offset, input, next));
      SectorSplices(disk, ext, offset, input, done);
      LoopSplices(disk1, ext, offset, input, next);
      SplicedTrans(disk, disk1, disk', ext, offset, input, offset + done, offset + next, offset + |input|);
    }
  }

  lemma ApplyCons(disk: Disk, w: Write, ws: seq<Write>)
    ensures Apply(disk, [w] + ws) == Apply(Apply1(disk, w), ws)
  {
    ApplyConcat(disk, [w], ws);
    assert ApplyFirst(disk, [w], 0) == disk;
    assert Apply(disk, [w]) == Apply1(disk, w);
  }

  /** The loop writes only the file's own blocks. */
  lemma {:induction false} LoopTargets(disk: Disk, ext: seq<Extent>, offset: nat, input: seq<u8>, done: nat)
    requires OnDisk(disk, ext) && done <= |input| && offset + |input| <= Allocated(ext) * BLOCK_SIZE
    ensures forall k | 0 <= k < |DataWrites(disk, ext, offset, input, done)| ::
      DataWrites(disk, ext, offset, input, done)[k].lba in Blocks(ext)
    decreases |input| - done
  {
    if done < |input| {
      var w := SectorWrite(disk, ext, offset, input, done);
      assert w.lba == Blocks(ext)[(offset + done) / BLOCK_SIZE];
      LoopTargets(Apply1(disk, w), ext, offset, input, done + SectorCount(offset, input, done));
    }
  }

  // ---- the byte-string view -------------------------------------------------------

  function Splice(s: seq<u8>, offset: nat, input: seq<u8>): seq<u8>
    requires offset <= |s|
  {
    s[..offset] + input + (if offset + |input| < |s| then s[offset + |input|..] else [])
  }

  lemma SpliceAt(s: seq<u8>, offset: nat, input: seq<u8>, p: nat)
    requires offset <= |s| && p < Max(|s|, offset + |input|)
    ensures |Splice(s, offset, input)| == Max(|s|, offset + |input|)
    ensures Splice(s, offset, input)[p] == if offset <= p < offset + |input| then input[p - offset] else s[p]
  {
  }

  lemma WrittenByte(disk: Disk, n: Node, ext: seq<Extent>, offset: nat, input: seq<u8>, p: nat)
    requires Readable(disk, n) && Blocks(n.extents) <= Blocks(ext) && OnDisk(disk, ext) && NoDup(Blocks(ext))
    requires offset + |input| <= Allocated(ext) * BLOCK_SIZE
    requires p < n.size || offset <= p < offset + |input|
    ensures p < Allocated(ext) * BLOCK_SIZE
    ensures ByteAt(Apply(disk, DataWrites(disk, ext, offset, input, 0)), ext, p)
      == if offset <= p < offset + |input| then input[p - offset] else Content(disk, n)[p]
  {
    if p < n.size {
      SameByte(disk, n.extents, ext, p);
    }
    LoopSplices(disk, ext, offset, input, 0);
  }

  /** `now` is `was` with `input` laid over it from `offset` on; bytes between
      the end of `was` and a later `offset` are unspecified. */
  ghost predicate Overlaid(was: seq<u8>, now: seq<u8>, offset: nat, input: seq<u8>) {
    && |now| == Max(|was|, offset + |input|)
    && forall p | 0 <= p < |now| && (p < |was| || offset <= p) ::
         now[p] == if offset <= p < offset + |input| then input[p - offset] else was[p]
  }

  /** At or before the end of the file this is the splice. */
  lemma OverlaidIsSplice(was: seq<u8>, now: seq<u8>, offset: nat, input: seq<u8>)
    requires Overlaid(was, now, offset, input) && offset <= |was|
    ensures now == Splice(was, offset, input)
  {
    var s := Splice(was, offset, input);
    assert |s| == |now|;
    forall p | 0 <= p < |now|
      ensures now[p] == s[p]
    {
      SpliceAt(was, offset, input, p);
    }
  }

  /** Past it: the old bytes, a gap, then the input. */
  lemma OverlaidIsGap(was: seq<u8>, now: seq<u8>, offset: nat, input: seq<u8>)
    requires Overlaid(was, now, offset, input) && |was| < offset
    ensures |now| == offset + |input| && now[..|was|] == was && now[offset..] == input
  {
  }

  lemma WriteOverlays(disk: Disk, n: Node, ext: seq<Extent>, offset: nat, input: seq<u8>, mtime: u64)
    requires Readable(disk, n) && Blocks(n.extents) <= Blocks(ext) && OnDisk(disk, ext) && NoDup(Blocks(ext))
    requires offset + |input| <= Allocated(ext) * BLOCK_SIZE
    ensures var disk' := Apply(disk, DataWrites(disk, ext, offset, input, 0));
      var n' := n.(extents := ext, size := Max(n.size, offset + |input|), mtime := mtime);
      Readable(disk', n') && Overlaid(Content(disk, n), Content(disk', n'), offset, input)
  {
    var disk' := Apply(disk, DataWrites(disk, ext, offset, input, 0));
    var n' := n.(extents := ext, size := Max(n.size, offset + |input|), mtime := mtime);
    var was := Content(disk, n);
    assert |Blocks(n.extents)| <= |Blocks(ext)|;
    var now := Content(disk', n');
    forall p | 0 <= p < |now| && (p < |was| || offset <= p)
      ensures now[p] == if offset <= p < offset + |input| then input[p - offset] else was[p]
    {
      WrittenByte(disk, n, ext, offset, input, p);
    }
  }

  lemma SameByte(disk: Disk, ext: seq<Extent>, ext': seq<Extent>, p: nat)
    requires OnDisk(disk, ext) && OnDisk(disk, ext') && Blocks(ext) <= Blocks(ext')
    requires p < Allocated(ext) * BLOCK_SIZE
    ensures p < Allocated(ext') * BLOCK_SIZE && ByteAt(disk, ext', p) == ByteAt(disk, ext, p)
  {
    assert Blocks(ext')[..|Blocks(ext)|] == Blocks(ext);
  }

  /** Growing a node's extents without writing keeps its content. */
  lemma GrowKeepsContent(disk: Disk, n: Node, ext: seq<Extent>)
    requires Readable(disk, n) && Blocks(n.extents) <= Blocks(ext) && OnDisk(disk, ext)
    ensures Readable(disk, n.(extents := ext)) && Content(disk, n.(extents := ext)) == Content(disk, n)
  {
    forall p | 0 <= p < n.size
      ensures Content(disk, n.(extents := ext))[p] == Content(disk, n)[p]
    {
      SameByte(disk, n.extents, ext, p);
    }
  }

  /** A file none of whose blocks is written keeps its content. */
  lemma UntouchedContent(disk: Disk, ws: seq<Write>, n: Node)
    requires Readable(disk, n) && forall k | 0 <= k < |ws| :: ws[k].lba !in Blocks(n.extents)
    ensures Readable(Apply(disk, ws), n) && Content(Apply(disk, ws), n) == Content(disk, n)
  {
    forall p | 0 <= p < n.size
      ensures Content(Apply(disk, ws), n)[p] == Content(disk, n)[p]
    {
      ApplyFrame(disk, ws, |ws|, Blocks(n.extents)[p / BLOCK_SIZE]);
    }
  }
}
