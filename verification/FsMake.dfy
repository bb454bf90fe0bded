/** Formatting a partition of a device as an empty DunitFS. */
module FsMake {
  import opened Bytes
  import opened Blocks
  import opened FsFormat
  import opened FsNode
  import opened FsAlloc
  import opened FsOps
  import opened FsInv
  import opened FsLoad
  import opened FsCrash
  import opened FsRuns
  import opened FsHistory
  import Bitmap
  import Crc
  import FsCheck

  /** The blocks of a partition. */
  function Part(s: Sectors, start: nat, count: nat): Disk
    requires Sized(s, BLOCK_SIZE) && start + count <= |s|
  {
    s[start..start + count]
  }

  /** The partition lies on the device and has room for data. */
  predicate Formattable(size: nat, blocks: nat, start: nat, count: nat) {
    size == BLOCK_SIZE && count > Derive(count).dataStart && start + count <= blocks
  }

  method WritePartitionBlock(dev: Drive, start: nat, count: nat, at: nat, data: Block) returns (ok: bool)
    requires dev.Valid() && dev.size == BLOCK_SIZE && start + count <= |dev.blocks| && at < count
    modifies dev
    ensures dev.Valid() && Same(old(dev.blocks), dev.blocks, start + at, start + at + 1)
    ensures if ok then dev.faults == old(dev.faults) else dev.faults > old(dev.faults)
    ensures ok ==> Part(dev.blocks, start, count) == Apply1(old(Part(dev.blocks, start, count)), Write(at, data))
  {
    ok := dev.Write(start + at, [data]);
    if ok {
      var part := Part(dev.blocks, start, count);
      assert dev.blocks[start + at..start + at + 1][0] == part[at];
      assert part == Apply1(old(Part(dev.blocks, start, count)), Write(at, data));
    }
  }

  /** The image of an empty volume: the metadata blocks in use, no nodes. */
  method EmptyImage(g: Geometry) returns (image: seq<u8>)
    requires GeomOk(g)
    ensures Publishable(g, FormatMeta(g)) && image == ImageOf(g, FormatMeta(g))
  {
    hide Bitmap.Unpack, Bitmap.BitPut, Bitmap.Pack, NodeTable;
    FormatMetaOk(g);
    DeriveBounds(g);
    var bitmap := Zeros(g.BitmapLen());
    BlankBitmap(g.BitmapLen());
    for block := 0 to g.dataStart
      invariant |bitmap| == g.BitmapLen() && Bitmap.Unpack(bitmap) == MarkUsed({}, 0, block)
    {
      Bitmap.UnpackPut(bitmap, block, true);
      bitmap := Bitmap.BitPut(bitmap, block, true);
    }
    Bitmap.PackUnpack(bitmap);
    BlankTable();
    image := bitmap + Zeros(NODE_TABLE_BLOCKS * BLOCK_SIZE);
  }

  lemma BlankBitmap(n: nat)
    ensures Bitmap.Unpack(Zeros(n)) == {}
  {
    forall i | 0 <= i < n * 8
      ensures !Bitmap.BitGet(Zeros(n), i)
    {
      BlankBit(i % 8);
    }
  }

  lemma {:induction false} BlankBit(k: nat)
    ensures !Bitmap.TestBit(0, k)
  {
    if k > 0 {
      BlankBit(k - 1);
    }
  }

  lemma BlankTable()
    ensures NodeTable(seq(MAX_NODES, i => None)) == Zeros(NODE_TABLE_BLOCKS * BLOCK_SIZE)
  {
  }

  ghost function ZeroWrites(g: Geometry): seq<FsOps.Write> {
    seq(g.dataStart, i requires 0 <= i < g.dataStart => Write(i, Zeros(BLOCK_SIZE)))
  }

  /** Zeroes the metadata region. */
  method ZeroRegion(dev: Drive, start: nat, count: nat, g: Geometry) returns (ok: bool)
    requires dev.Valid() && dev.size == BLOCK_SIZE && start + count <= |dev.blocks| && g.dataStart < count
    modifies dev
    ensures dev.Valid() && Same(old(dev.blocks), dev.blocks, start, start + g.dataStart)
    ensures if ok then dev.faults == old(dev.faults) else dev.faults > old(dev.faults)
    ensures ok ==> Part(dev.blocks, start, count) == Apply(old(Part(dev.blocks, start, count)), ZeroWrites(g))
  {
    hide Apply, ApplyFirst, Apply1, Part;
    ghost var part, ws := Part(dev.blocks, start, count), ZeroWrites(g);
    ApplyNone(part);
    assert ws[..0] == [];
    for i := 0 to g.dataStart
      invariant dev.Valid() && Same(old(dev.blocks), dev.blocks, start, start + g.dataStart)
      invariant dev.faults == old(dev.faults)
      invariant Part(dev.blocks, start, count) == Apply(part, ws[..i])
    {
      assert ws[..i + 1] == ws[..i] + [ws[i]];
      ApplySnoc(part, ws[..i], ws[i]);
      ok := WritePartitionBlock(dev, start, count, i, Zeros(BLOCK_SIZE));
      if !ok {
        return;
      }
    }
    assert ws[..g.dataStart] == ws;
    return true;
  }

  /** Writes a slot image block by block. */
  method WriteSlot(dev: Drive, start: nat, count: nat, g: Geometry, slot: nat, image: seq<u8>) returns (ok: bool)
    requires dev.Valid() && dev.size == BLOCK_SIZE && start + count <= |dev.blocks|
    requires |image| == g.SlotBytes() && g.SlotStart(slot) + g.slotBlocks <= g.dataStart < count
    modifies dev
    ensures dev.Valid() && Same(old(dev.blocks), dev.blocks, start, start + g.dataStart)
    ensures if ok then dev.faults == old(dev.faults) else dev.faults > old(dev.faults)
    ensures ok ==>
      Part(dev.blocks, start, count) == Apply(old(Part(dev.blocks, start, count)), SlotWrites(g, slot, image))
  {
    hide Apply, ApplyFirst, Apply1, Part;
    ghost var part, ws := Part(dev.blocks, start, count), SlotWrites(g, slot, image);
    ApplyNone(part);
    assert ws[..0] == [];
    for i := 0 to g.slotBlocks
      invariant dev.Valid() && Same(old(dev.blocks), dev.blocks, start, start + g.dataStart)
      invariant dev.faults == old(dev.faults)
      invariant Part(dev.blocks, start, count) == Apply(part, ws[..i])
    {
      assert ws[..i + 1] == ws[..i] + [ws[i]];
      ApplySnoc(part, ws[..i], ws[i]);
      var block: Block := image[i * BLOCK_SIZE..(i + 1) * BLOCK_SIZE];
      ok := WritePartitionBlock(dev, start, count, g.SlotStart(slot) + i, block);
      if !ok {
        return;
      }
    }
    assert ws[..g.slotBlocks] == ws;
    return true;
  }

  /** Formats a partition; every block it writes lies in the metadata region. */
  method Format(dev: Drive, start: nat, count: nat) returns (ok: bool)
    requires dev.Valid()
    modifies dev
    ensures dev.Valid() && Same(old(dev.blocks), dev.blocks, start, start + count)
    ensures dev.faults >= old(dev.faults) && (ok ==> dev.faults == old(dev.faults))
    ensures !Formattable(dev.size, |dev.blocks|, start, count) ==> !ok && dev.blocks == old(dev.blocks)
    ensures Formattable(dev.size, |dev.blocks|, start, count) ==> ok || dev.faults > old(dev.faults)
    ensures ok ==>
      && Formattable(dev.size, |dev.blocks|, start, count) && Publishable(Derive(count), FormatMeta(Derive(count)))
      && Part(dev.blocks, start, count) == Apply(old(Part(dev.blocks, start, count)), FormatWrites(Derive(count)))
  {
    hide Apply, ApplyFirst, Apply1, Part, FormatMeta, ImageOf, EncodeSuper, SlotWrites, Derive, GeomOk, Publishable,
         MetaOk, NodesOk;
    var g := Derive(count);
    if dev.size != BLOCK_SIZE || count <= g.dataStart || start + count > |dev.blocks| {
      return false;
    }
    DeriveOk(count);
    ghost var part := Part(dev.blocks, start, count);
    ok := ZeroRegion(dev, start, count, g);
    if !ok {
      return;
    }
    var image := EmptyImage(g);
    ok := WriteSlot(dev, start, count, g, 0, image);
    if !ok {
      return;
    }
    FormatSuper(g);
    var super := EncodeSuper(SuperBlock(1, 0, Crc.Crc32(image)), g);
    ok := WritePartitionBlock(dev, start, count, 0, super);
    if !ok {
      return;
    }
    ok := WritePartitionBlock(dev, start, count, 1, super);
    if !ok {
      return;
    }
    FormatOrder(part, g, image, super);
  }

  lemma DeriveOk(count: nat)
    requires Derive(count).dataStart < count < 0x1_0000_0000_0000_0000
    ensures var g := Derive(count);
      && GeomOk(g) && g.totalBlocks == count && 1 < g.dataStart
      && g.SlotStart(0) + g.slotBlocks <= g.dataStart
  {
  }

  lemma FormatSuper(g: Geometry)
    requires Publishable(g, FormatMeta(g))
    ensures NodesOk(g, FormatMeta(g).nodes)
    ensures SuperOf(g, FormatMeta(g)) == SuperBlock(1, 0, Crc.Crc32(ImageOf(g, FormatMeta(g))))
  {
  }

  lemma FormatOrder(part: Disk, g: Geometry, image: seq<u8>, super: Block)
    requires GeomOk(g) && NodesOk(g, FormatMeta(g).nodes)
    requires image == ImageOf(g, FormatMeta(g)) && super == EncodeSuper(SuperOf(g, FormatMeta(g)), g)
    ensures Apply(part, FormatWrites(g)) ==
      Apply1(Apply1(Apply(Apply(part, ZeroWrites(g)), SlotWrites(g, 0, image)), Write(0, super)), Write(1, super))
  {
    hide Apply, ApplyFirst, Apply1, FormatMeta, ImageOf, EncodeSuper, SlotWrites, GeomOk, NodesOk;
    var zeroes, slot := ZeroWrites(g), SlotWrites(g, 0, image);
    ApplyConcat(part, zeroes, PublishWrites(g, 0, image, super));
    var blank := Apply(part, zeroes);
    assert PublishWrites(g, 0, image, super) == slot + [Write(0, super)] + [Write(1, super)];
    ApplySnoc(blank, slot + [Write(0, super)], Write(1, super));
    ApplySnoc(blank, slot, Write(0, super));
  }

  /** A formatted partition mounts read/write as the empty volume. */
  lemma FormattedMounts(part: Disk, count: nat)
    requires |part| == count && Derive(count).dataStart < count < 0x1_0000_0000_0000_0000
    ensures var g := Derive(count);
      && GeomOk(g) && Publishable(g, FormatMeta(g))
      && FsCheck.LoadPartition(Apply(part, FormatWrites(g))) == Loaded(MountOf(g, FormatMeta(g)))
  {
    hide Apply, ApplyFirst, FormatMeta, FormatWrites, Derive, GeomOk, Load, Publishable;
    DeriveOk(count);
    FormatMounts(part, Derive(count));
  }
}
