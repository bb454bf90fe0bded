/** Crash safety: at every block-write boundary of a commit, mounting returns
    exactly the last published metadata or exactly the one being published. */
module FsCrash {
  import opened Bytes
  import opened FsFormat
  import opened FsOps
  import opened FsLoad
  import Crc

  /** The primary superblock `sb` names slot image `image`, which is intact, and
      the backup, whatever it holds, claims no later generation. */
  ghost predicate Stands(disk: Disk, g: Geometry, sb: SuperBlock, image: seq<u8>) {
    && GeomOk(g) && |disk| == g.totalBlocks && sb.activeSlot <= 1
    && DecodeSuper(disk[0], g) == Some(sb)
    && g.SlotStart(sb.activeSlot) + g.slotBlocks <= |disk|
    && ReadSlot(disk, g, sb.activeSlot) == image && Crc.Crc32(image) == sb.slotCrc
    && (DecodeSuper(disk[1], g).Some? ==> DecodeSuper(disk[1], g).value.generation <= sb.generation)
  }

  /** Mounting takes the standing image if it assembles strictly. */
  lemma LoadStanding(disk: Disk, g: Geometry, sb: SuperBlock, image: seq<u8>, fs: Fs)
    requires Stands(disk, g, sb, image) && ImageOk(g, image) && FromSlot(g, sb, image) == Some(fs)
    ensures Load(disk, g) == Loaded(fs)
  {
    var a, b := ReadCandidate(disk, g, 0), ReadCandidate(disk, g, 1);
    assert a == Some(Candidate(sb, image));
    RankedFirst(a, b);
    assert Candidates(disk, g)[0] == Candidate(sb, image);
  }

  lemma RankedFirst(a: Option<Candidate>, b: Option<Candidate>)
    requires a.Some? && (b.Some? ==> b.value.super.generation <= a.value.super.generation)
    ensures |Ranked(a, b)| > 0 && Ranked(a, b)[0] == a.value
  {
  }

  // ---- a commit, write by write ------------------------------------------------------------

  lemma SameSlotRead(disk: Disk, disk': Disk, g: Geometry, slot: nat)
    requires g.SlotStart(slot) + g.slotBlocks <= |disk| == |disk'|
    requires forall b | g.SlotStart(slot) <= b < g.SlotStart(slot) + g.slotBlocks :: disk'[b] == disk[b]
    ensures ReadSlot(disk', g, slot) == ReadSlot(disk, g, slot)
  {
  }

  /** Whatever leaves both superblocks and the named slot alone keeps the
      standing image. */
  lemma StandsFrame(disk: Disk, disk': Disk, g: Geometry, sb: SuperBlock, image: seq<u8>)
    requires Stands(disk, g, sb, image) && |disk'| == |disk| > 1
    requires g.SlotStart(sb.activeSlot) + g.slotBlocks <= |disk|
    requires disk'[0] == disk[0] && disk'[1] == disk[1]
    requires forall b | g.SlotStart(sb.activeSlot) <= b < g.SlotStart(sb.activeSlot) + g.slotBlocks ::
      disk'[b] == disk[b]
    ensures Stands(disk', g, sb, image)
  {
    SameSlotRead(disk, disk', g, sb.activeSlot);
  }

  lemma {:induction false} SlotWritten(disk: Disk, g: Geometry, slot: nat, image: seq<u8>, k: nat, b: nat)
    requires |image| == g.SlotBytes() && k <= g.slotBlocks && b < k
    requires g.SlotStart(slot) + g.slotBlocks <= |disk|
    ensures ApplyFirst(disk, SlotWrites(g, slot, image), k)[g.SlotStart(slot) + b] == Chunk(image, b)
  {
    if b < k - 1 {
      SlotWritten(disk, g, slot, image, k - 1, b);
    }
  }

  /** Once all blocks of the image are in place, the slot reads back as it. */
  lemma SlotReadsBack(disk: Disk, g: Geometry, slot: nat, image: seq<u8>)
    requires |image| == g.SlotBytes() && g.SlotStart(slot) + g.slotBlocks <= |disk|
    requires forall b | 0 <= b < g.slotBlocks :: disk[g.SlotStart(slot) + b] == Chunk(image, b)
    ensures ReadSlot(disk, g, slot) == image
  {
    forall p | 0 <= p < g.SlotBytes()
      ensures ReadSlot(disk, g, slot)[p] == image[p]
    {
      var b := p / BLOCK_SIZE;
      assert disk[g.SlotStart(slot) + b] == Chunk(image, b);
      assert Chunk(image, b)[p % BLOCK_SIZE] == image[b * BLOCK_SIZE + p % BLOCK_SIZE];
    }
  }

  /** The writes of publishing `image` in `slot` under superblock block `super`. */
  function PublishWrites(g: Geometry, slot: nat, image: seq<u8>, super: Block): (ws: seq<Write>)
    requires |image| == g.SlotBytes()
    ensures |ws| == g.slotBlocks + 2
  {
    SlotWrites(g, slot, image) + [Write(0, super), Write(1, super)]
  }

  /** The disk after `k` of them. */
  lemma PublishPrefix(disk: Disk, g: Geometry, slot: nat, image: seq<u8>, super: Block, k: nat)
    requires |image| == g.SlotBytes() && |disk| > 1 && k <= g.slotBlocks + 2
    ensures var part := ApplyFirst(disk, PublishWrites(g, slot, image, super), k);
      var full := Apply(disk, SlotWrites(g, slot, image));
      && (k <= g.slotBlocks ==> part == ApplyFirst(disk, SlotWrites(g, slot, image), k))
      && (k == g.slotBlocks + 1 ==> part == full[0 := super])
      && (k == g.slotBlocks + 2 ==> part == full[0 := super][1 := super])
  {
    var first := SlotWrites(g, slot, image);
    var tail := [Write(0, super), Write(1, super)];
    if k <= |first| {
      ApplyPrefix(disk, first, tail, k);
    } else {
      ApplyRest(disk, first, tail, k - |first|);
      var d := Apply(disk, first);
      assert ApplyFirst(d, tail, 0) == d;
      assert ApplyFirst(d, tail, 1) == d[0 := super];
    }
  }

  /** While the other slot is being written, the standing image stands. */
  lemma PublishBefore(disk: Disk, g: Geometry, sb: SuperBlock, image: seq<u8>, next: seq<u8>, k: nat)
    requires Stands(disk, g, sb, image) && |next| == g.SlotBytes() && k <= g.slotBlocks && sb.activeSlot <= 1
    ensures Stands(ApplyFirst(disk, SlotWrites(g, 1 - sb.activeSlot, next), k), g, sb, image)
  {
    var ws := SlotWrites(g, 1 - sb.activeSlot, next);
    DeriveBounds(g);
    forall b | b == 0 || b == 1 || g.SlotStart(sb.activeSlot) <= b < g.SlotStart(sb.activeSlot) + g.slotBlocks
      ensures ApplyFirst(disk, ws, k)[b] == disk[b]
    {
      ApplyFrame(disk, ws, k, b);
    }
    StandsFrame(disk, ApplyFirst(disk, ws, k), g, sb, image);
  }

  lemma PublishedBlocks(disk: Disk, g: Geometry, slot: nat, next: seq<u8>, super: Block, k: nat)
    requires GeomOk(g) && |disk| == g.totalBlocks && |next| == g.SlotBytes() && slot <= 1
    requires g.slotBlocks < k <= g.slotBlocks + 2
    ensures var disk' := ApplyFirst(disk, PublishWrites(g, slot, next, super), k);
      && g.SlotStart(slot) + g.slotBlocks <= |disk|
      && disk'[0] == super && (disk'[1] == super || disk'[1] == disk[1])
      && ReadSlot(disk', g, slot) == next
  {
    var full := Apply(disk, SlotWrites(g, slot, next));
    var disk' := ApplyFirst(disk, PublishWrites(g, slot, next, super), k);
    DeriveBounds(g);
    PublishPrefix(disk, g, slot, next, super, k);
    ApplyFrame(disk, SlotWrites(g, slot, next), g.slotBlocks, 1);
    forall b | 0 <= b < g.slotBlocks
      ensures disk'[g.SlotStart(slot) + b] == Chunk(next, b)
    {
      SlotWritten(disk, g, slot, next, g.slotBlocks, b);
      assert disk'[g.SlotStart(slot) + b] == full[g.SlotStart(slot) + b];
    }
    SlotReadsBack(disk', g, slot, next);
  }

  /** Once the primary superblock is written, the new image stands. */
  lemma PublishAfter(disk: Disk, g: Geometry, sb: SuperBlock, image: seq<u8>, next: seq<u8>, super: Block, k: nat)
    requires Stands(disk, g, sb, image) && |next| == g.SlotBytes() && sb.activeSlot <= 1
    requires g.slotBlocks < k <= g.slotBlocks + 2
    requires DecodeSuper(super, g) == Some(SuperBlock(sb.generation + 1, 1 - sb.activeSlot, Crc.Crc32(next)))
    ensures Stands(ApplyFirst(disk, PublishWrites(g, 1 - sb.activeSlot, next, super), k), g,
                   SuperBlock(sb.generation + 1, 1 - sb.activeSlot, Crc.Crc32(next)), next)
  {
    PublishedBlocks(disk, g, 1 - sb.activeSlot, next, super, k);
  }

  lemma SlotWritesMiss(disk: Disk, g: Geometry, slot: nat, image: seq<u8>, b: nat)
    requires GeomOk(g) && |disk| == g.totalBlocks && |image| == g.SlotBytes() && b < 2
    ensures Apply(disk, SlotWrites(g, slot, image))[b] == disk[b]
  {
    ApplyFrame(disk, SlotWrites(g, slot, image), g.slotBlocks, b);
  }

  /** A primary superblock torn into something that does not decode: if both
      superblocks agreed when the commit began, the old image is mounted. */
  lemma TornPrimary(disk: Disk, g: Geometry, sb: SuperBlock, image: seq<u8>, next: seq<u8>, torn: Block, fs: Fs)
    requires Stands(disk, g, sb, image) && |disk| > 1 && disk[1] == disk[0] && |next| == g.SlotBytes()
    requires GeomOk(g) && |disk| == g.totalBlocks && sb.activeSlot <= 1
    requires DecodeSuper(torn, g).None? && ImageOk(g, image) && FromSlot(g, sb, image) == Some(fs)
    ensures Load(Apply(disk, SlotWrites(g, 1 - sb.activeSlot, next))[0 := torn], g) == Loaded(fs)
  {
    hide SlotWrites, FromSlot, FromSlotDegraded, ReadSlot;
    var full := Apply(disk, SlotWrites(g, 1 - sb.activeSlot, next));
    DeriveBounds(g);
    PublishBefore(disk, g, sb, image, next, g.slotBlocks);
    SlotWritesMiss(disk, g, 1 - sb.activeSlot, next, 0);
    SlotWritesMiss(disk, g, 1 - sb.activeSlot, next, 1);
    var disk' := full[0 := torn];
    SameSlotRead(full, disk', g, sb.activeSlot);
    assert ReadCandidate(disk', g, 0).None?;
    assert ReadCandidate(disk', g, 1) == Some(Candidate(sb, image));
    assert Candidates(disk', g) == [Candidate(sb, image)];
  }
}
