/** What a mount makes of any disk: which superblocks and entries are accepted,
    byte by byte, and which generation is chosen. */
module FsMount {
  import opened Bytes
  import opened FsFormat
  import opened FsNode
  import opened FsAlloc
  import opened FsLoad
  import Crc

  // ---- superblocks ---------------------------------------------------------------------------

  /** A block is accepted as a superblock if and only if it has the bytes that
      publishing it would write, reserved areas aside, and carries its own
      checksum. */
  lemma SuperIff(b: Block, g: Geometry, sb: SuperBlock)
    requires GeomOk(g)
    ensures DecodeSuper(b, g) == Some(sb) <==>
      && SuperOk(sb)
      && var e := EncodeSuper(sb, g);
         b[..60] == e[..60] && b[64..92] == e[64..92] && b[508..512] == LE(Crc.Crc32(b[..508]), 4)
  {
    hide SuperBody, DecodeSuper;
    if SuperOk(sb) {
      SuperWhen(b, g, sb);
    } else if DecodeSuper(b, g) == Some(sb) {
      SuperSound(b, g);
    }
  }

  lemma SuperSound(b: Block, g: Geometry)
    requires DecodeSuper(b, g).Some?
    ensures SuperOk(DecodeSuper(b, g).value)
  {
    Field64(b, 24, 0);
    Field32(b, 88, 0);
  }

  lemma SuperWhen(b: Block, g: Geometry, sb: SuperBlock)
    requires GeomOk(g) && SuperOk(sb)
    ensures var e := EncodeSuper(sb, g);
      DecodeSuper(b, g) == Some(sb) <==>
        b[..60] == e[..60] && b[64..92] == e[64..92] && b[508..512] == LE(Crc.Crc32(b[..508]), 4)
  {
    hide EncodeSuper, DecodeSuper, LE, Field, GeomOk;
    if DecodeSuper(b, g) == Some(sb) {
      SuperSealed(b, g);
      SuperBytes(b, g, sb);
    }
    var e := EncodeSuper(sb, g);
    if b[..60] == e[..60] && b[64..92] == e[64..92] && b[508..512] == LE(Crc.Crc32(b[..508]), 4) {
      Field32(b, 508, Crc.Crc32(b[..508]));
      SuperFieldsOf(b, g, sb);
      DecodeSuperFields(b, sb, g);
    }
  }

  lemma SuperSealed(b: Block, g: Geometry)
    requires DecodeSuper(b, g).Some?
    ensures b[508..512] == LE(Crc.Crc32(b[..508]), 4)
  {
    hide LE, Field;
    Field32(b, 508, Crc.Crc32(b[..508]));
  }

  lemma SuperFieldsOf(b: Block, g: Geometry, sb: SuperBlock)
    requires GeomOk(g) && SuperOk(sb)
    requires var e := EncodeSuper(sb, g); b[..60] == e[..60] && b[64..92] == e[64..92]
    ensures b[..8] == MAGIC && Field(b, 8, 4) == VERSION && Field(b, 12, 4) == BLOCK_SIZE
    ensures Field(b, 16, 8) == g.totalBlocks && Field(b, 24, 8) == sb.generation
    ensures Field(b, 32, 4) == sb.activeSlot && Field(b, 36, 4) == MAX_NODES
    ensures Field(b, 40, 4) == NODE_SIZE && Field(b, 44, 4) == g.bitmapBlocks % 0x1_0000_0000
    ensures Field(b, 48, 4) == g.slotBlocks % 0x1_0000_0000 && Field(b, 52, 4) == MAX_EXTENTS
    ensures Field(b, 56, 4) == PATH_SIZE && Field(b, 64, 8) == g.slot0Start
    ensures Field(b, 72, 8) == g.slot1Start && Field(b, 80, 8) == g.dataStart && Field(b, 88, 4) == sb.slotCrc
  {
    hide SuperBody, LE, Field;
    DeriveBounds(g);
    var e := EncodeSuper(sb, g);
    SuperFields(e, sb, g, LE(Crc.Crc32(SuperBody(sb, g)), 4));
    AgreeIn(b, e, 0, 60, 0, 8); AgreeIn(b, e, 0, 60, 8, 12); AgreeIn(b, e, 0, 60, 12, 16);
    AgreeIn(b, e, 0, 60, 16, 24); AgreeIn(b, e, 0, 60, 24, 32); AgreeIn(b, e, 0, 60, 32, 36);
    AgreeIn(b, e, 0, 60, 36, 40); AgreeIn(b, e, 0, 60, 40, 44); AgreeIn(b, e, 0, 60, 44, 48);
    AgreeIn(b, e, 0, 60, 48, 52); AgreeIn(b, e, 0, 60, 52, 56); AgreeIn(b, e, 0, 60, 56, 60);
    AgreeIn(b, e, 64, 92, 64, 72); AgreeIn(b, e, 64, 92, 72, 80); AgreeIn(b, e, 64, 92, 80, 88);
    AgreeIn(b, e, 64, 92, 88, 92);
    SuperFieldsAre(b, g, sb);
  }

  /** Each checked field against its bytes. */
  lemma SuperFieldsAre(b: Block, g: Geometry, sb: SuperBlock)
    requires GeomOk(g) && SuperOk(sb)
    ensures Field(b, 8, 4) == VERSION <==> b[8..12] == LE(VERSION, 4)
    ensures Field(b, 12, 4) == BLOCK_SIZE <==> b[12..16] == LE(BLOCK_SIZE, 4)
    ensures Field(b, 16, 8) == g.totalBlocks <==> b[16..24] == LE(g.totalBlocks, 8)
    ensures Field(b, 24, 8) == sb.generation <==> b[24..32] == LE(sb.generation, 8)
    ensures Field(b, 32, 4) == sb.activeSlot <==> b[32..36] == LE(sb.activeSlot, 4)
    ensures Field(b, 36, 4) == MAX_NODES <==> b[36..40] == LE(MAX_NODES, 4)
    ensures Field(b, 40, 4) == NODE_SIZE <==> b[40..44] == LE(NODE_SIZE, 4)
    ensures Field(b, 44, 4) == g.bitmapBlocks % 0x1_0000_0000 <==> b[44..48] == LE(g.bitmapBlocks, 4)
    ensures Field(b, 48, 4) == g.slotBlocks % 0x1_0000_0000 <==> b[48..52] == LE(g.slotBlocks, 4)
    ensures Field(b, 52, 4) == MAX_EXTENTS <==> b[52..56] == LE(MAX_EXTENTS, 4)
    ensures Field(b, 56, 4) == PATH_SIZE <==> b[56..60] == LE(PATH_SIZE, 4)
    ensures Field(b, 64, 8) == g.slot0Start <==> b[64..72] == LE(g.slot0Start, 8)
    ensures Field(b, 72, 8) == g.slot1Start <==> b[72..80] == LE(g.slot1Start, 8)
    ensures Field(b, 80, 8) == g.dataStart <==> b[80..88] == LE(g.dataStart, 8)
    ensures Field(b, 88, 4) == sb.slotCrc <==> b[88..92] == LE(sb.slotCrc, 4)
  {
    hide LE, Field;
    DeriveBounds(g);
    Field32(b, 8, VERSION); Field32(b, 12, BLOCK_SIZE); Field64(b, 16, g.totalBlocks);
    Field64(b, 24, sb.generation); Field32(b, 32, sb.activeSlot); Field32(b, 36, MAX_NODES);
    Field32(b, 40, NODE_SIZE); Field32(b, 44, g.bitmapBlocks); Field32(b, 48, g.slotBlocks);
    Field32(b, 52, MAX_EXTENTS); Field32(b, 56, PATH_SIZE); Field64(b, 64, g.slot0Start);
    Field64(b, 72, g.slot1Start); Field64(b, 80, g.dataStart); Field32(b, 88, sb.slotCrc);
  }

  lemma SuperBytes(b: Block, g: Geometry, sb: SuperBlock)
    requires GeomOk(g) && SuperOk(sb) && DecodeSuper(b, g) == Some(sb)
    ensures var e := EncodeSuper(sb, g); b[..60] == e[..60] && b[64..92] == e[64..92]
  {
    hide SuperBody, LE, Field;
    var e := EncodeSuper(sb, g);
    SuperFieldsAre(b, g, sb);
    SuperFields(e, sb, g, LE(Crc.Crc32(SuperBody(sb, g)), 4));
    assert b[0..8] == e[0..8];
    AgreeOn(b, e, 0, 8, 12); AgreeOn(b, e, 0, 12, 16); AgreeOn(b, e, 0, 16, 24); AgreeOn(b, e, 0, 24, 32);
    AgreeOn(b, e, 0, 32, 36); AgreeOn(b, e, 0, 36, 40); AgreeOn(b, e, 0, 40, 44); AgreeOn(b, e, 0, 44, 48);
    AgreeOn(b, e, 0, 48, 52); AgreeOn(b, e, 0, 52, 56); AgreeOn(b, e, 0, 56, 60);
    AgreeOn(b, e, 64, 72, 80); AgreeOn(b, e, 64, 80, 88); AgreeOn(b, e, 64, 88, 92);
  }

  // ---- node entries -----------------------------------------------------------------------------

  /** The entry holds node `n`: in use, a well-formed node, the bytes that
      encoding it would write, reserved areas aside, and its own checksum. */
  ghost predicate Holds(entry: seq<u8>, g: Geometry, n: Node) {
    && |entry| == NODE_SIZE && entry[0] != 0 && NodeOk(g, n)
    && var e := EncodeNode(n);
       && entry[1..5] == e[1..5] && entry[8..130] == e[8..130] && entry[132..132 + |n.path|] == n.path
       && entry[252..256] == LE(Crc.Crc32(entry[..252]), 4)
  }

  /** An entry reads as a node if and only if it holds it, and as unused if and
      only if its first byte is 0; so it is corrupt iff it is in use and holds
      none. */
  lemma EntryIff(entry: seq<u8>, g: Geometry, n: Node)
    requires GeomOk(g) && |entry| == NODE_SIZE
    ensures ParseEntry(entry, g) == Good(n) <==> Holds(entry, g, n)
    ensures ParseEntry(entry, g).Unused? <==> entry[0] == 0
  {
    hide DecodeNode, Holds, Field, GeomOk;
    if ParseEntry(entry, g) == Good(n) {
      GoodHolds(entry, g, n);
    }
    if Holds(entry, g, n) {
      NodeFieldsOf(entry, g, n);
      HeldOk(entry, g, n);
      Sealed(entry);
    }
  }

  lemma Sealed(entry: seq<u8>)
    requires |entry| == NODE_SIZE
    ensures Field(entry, 252, 4) == Crc.Crc32(entry[..252]) <==> entry[252..256] == LE(Crc.Crc32(entry[..252]), 4)
  {
    hide LE, Field;
    Field32(entry, 252, Crc.Crc32(entry[..252]));
  }

  lemma GoodHolds(entry: seq<u8>, g: Geometry, n: Node)
    requires GeomOk(g) && |entry| == NODE_SIZE && ParseEntry(entry, g) == Good(n)
    ensures Holds(entry, g, n)
  {
    hide EncodeNode, DecodeNode, LE, Field, GeomOk;
    Sealed(entry);
    DecodeSound(entry, g);
    NodeBytes(entry, g, n);
  }

  lemma SlotBounds(g: Geometry, n: Node, i: nat)
    requires GeomOk(g) && NodeOk(g, n) && i < MAX_EXTENTS
    ensures ExtentSlot(n.extents, i).start < 0x1_0000_0000_0000_0000
    ensures ExtentSlot(n.extents, i).len < 0x1_0000_0000_0000_0000
  {
  }

  lemma NodeFieldsOf(entry: seq<u8>, g: Geometry, n: Node)
    requires GeomOk(g) && Holds(entry, g, n)
    ensures DecodeNode(entry, g) == Some(n)
  {
    hide NodeBody, LE, Field, DecodeNode, ExtentTable, TypeByte;
    var e := EncodeNode(n);
    EntryFields(n);
    AgreeIn(entry, e, 1, 5, 2, 4); AgreeIn(entry, e, 8, 130, 8, 16); AgreeIn(entry, e, 8, 130, 16, 24);
    AgreeIn(entry, e, 8, 130, 24, 32); AgreeIn(entry, e, 8, 130, 32, 128); AgreeIn(entry, e, 8, 130, 128, 130);
    Field16(entry, 2, n.mode); Field64(entry, 8, n.size); Field64(entry, 16, n.ctime); Field64(entry, 24, n.mtime);
    Field16(entry, 128, |n.path|);
    assert entry[1] == entry[1..5][0] == e[1..5][0] && entry[4] == entry[1..5][3] == e[1..5][3];
    forall i | 0 <= i < MAX_EXTENTS
      ensures ReadExtent(entry, i) == ExtentSlot(n.extents, i)
    {
      SlotBounds(g, n, i);
      TableExtent(entry, n.extents, i);
    }
    DecodeFields(entry, n, g);
  }

  lemma DecodedFields(entry: seq<u8>, g: Geometry, n: Node)
    requires |entry| == NODE_SIZE && DecodeNode(entry, g) == Some(n)
    ensures entry[1] == TypeByte(n.fileType) && Field(entry, 2, 2) == n.mode && entry[4] as nat == |n.extents|
    ensures Field(entry, 8, 8) == n.size && Field(entry, 16, 8) == n.ctime && Field(entry, 24, 8) == n.mtime
    ensures Field(entry, 128, 2) == |n.path| && 132 + |n.path| <= 252 && entry[132..132 + |n.path|] == n.path
    ensures forall i | 0 <= i < MAX_EXTENTS :: ReadExtent(entry, i) == ExtentSlot(n.extents, i)
  {
    hide Field;
  }

  lemma NodeBytes(entry: seq<u8>, g: Geometry, n: Node)
    requires GeomOk(g) && |entry| == NODE_SIZE && NodeOk(g, n) && DecodeNode(entry, g) == Some(n)
    ensures var e := EncodeNode(n);
      entry[1..5] == e[1..5] && entry[8..130] == e[8..130] && entry[132..132 + |n.path|] == n.path
  {
    hide EncodeNode, DecodeNode, LE, Field, ExtentTable, TypeByte, GeomOk, Allocated;
    var e := EncodeNode(n);
    EntryFields(n);
    DecodedFields(entry, g, n);
    Field16(entry, 2, n.mode); Field64(entry, 8, n.size); Field64(entry, 16, n.ctime); Field64(entry, 24, n.mtime);
    Field16(entry, 128, |n.path|);
    assert entry[1..2] == e[1..2] && entry[4..5] == e[4..5];
    AgreeOn(entry, e, 1, 2, 4); AgreeOn(entry, e, 1, 4, 5);
    TableBytes(entry, g, n);
    AgreeOn(entry, e, 8, 16, 24); AgreeOn(entry, e, 8, 24, 32); AgreeOn(entry, e, 8, 32, 128);
    AgreeOn(entry, e, 8, 128, 130);
  }

  lemma TableBytes(entry: seq<u8>, g: Geometry, n: Node)
    requires GeomOk(g) && |entry| == NODE_SIZE && NodeOk(g, n) && DecodeNode(entry, g) == Some(n)
    ensures entry[32..128] == ExtentTable(n.extents, 0)
  {
    hide LE, ExtentTable, DecodeNode, Allocated;
    DecodedFields(entry, g, n);
    var t := ExtentTable(n.extents, 0);
    forall k | 0 <= k < 96
      ensures entry[32..128][k] == t[k]
    {
      var i := k / 16;
      SlotBounds(g, n, i);
      Field64(entry, 32 + i * 16, ExtentSlot(n.extents, i).start);
      Field64(entry, 40 + i * 16, ExtentSlot(n.extents, i).len);
      ExtentTableAt(n.extents, 0, i);
      ByteOfTable(entry, t, i, k - i * 16);
    }
  }

  lemma ByteOfTable(entry: seq<u8>, t: seq<u8>, i: nat, r: nat)
    requires |entry| == NODE_SIZE && |t| == 96 && i < MAX_EXTENTS && r < 16
    requires entry[32 + i * 16..40 + i * 16] == t[i * 16..i * 16 + 8]
    requires entry[40 + i * 16..48 + i * 16] == t[i * 16 + 8..i * 16 + 16]
    ensures entry[32 + i * 16 + r] == t[i * 16 + r]
  {
    if r < 8 {
      assert entry[32 + i * 16 + r] == entry[32 + i * 16..40 + i * 16][r] && t[i * 16 + r] == t[i * 16..i * 16 + 8][r];
    } else {
      assert entry[32 + i * 16 + r] == entry[40 + i * 16..48 + i * 16][r - 8];
      assert t[i * 16 + r] == t[i * 16 + 8..i * 16 + 16][r - 8];
    }
  }

  // ---- a slot image -----------------------------------------------------------------------------

  ghost predicate Share(a: Node, b: Node) { exists x :: x in Blocks(a.extents) && x in Blocks(b.extents) }

  lemma MeetShare(a: Node, b: Node, k: nat, l: nat)
    requires k < |a.extents| && l < |b.extents| && a.extents[k].len > 0 && b.extents[l].len > 0
    requires a.extents[k].start < b.extents[l].start + b.extents[l].len
    requires b.extents[l].start < a.extents[k].start + a.extents[k].len
    ensures Share(a, b)
  {
    hide Blocks;
    var x := Max(a.extents[k].start, b.extents[l].start);
    BlockOfExtent(a.extents, k, x);
    BlockOfExtent(b.extents, l, x);
  }

  lemma BlockOfExtent(ext: seq<Extent>, k: nat, x: nat)
    requires k < |ext| && InExtent(ext[k], x)
    ensures x in Blocks(ext)
  {
    InBlocks(ext, |ext|, x);
  }

  lemma ExtentOfBlock(ext: seq<Extent>, x: nat) returns (k: nat)
    requires x in Blocks(ext)
    ensures k < |ext| && InExtent(ext[k], x)
  {
    InBlocks(ext, |ext|, x);
    k :| 0 <= k < |ext| && InExtent(ext[k], x);
  }

  /** Extents overlap if and only if the files share a block. */
  lemma OverlapIff(g: Geometry, a: Node, b: Node)
    requires NodeOk(g, a) && NodeOk(g, b)
    ensures Overlap(a, b) <==> Share(a, b)
  {
    hide Blocks, Allocated;
    if Overlap(a, b) {
      var k, l :| 0 <= k < |a.extents| && 0 <= l < |b.extents|
        && a.extents[k].start < b.extents[l].start + b.extents[l].len
        && b.extents[l].start < a.extents[k].start + a.extents[k].len;
      MeetShare(a, b, k, l);
    }
    if Share(a, b) {
      var x :| x in Blocks(a.extents) && x in Blocks(b.extents);
      var k := ExtentOfBlock(a.extents, x);
      var l := ExtentOfBlock(b.extents, x);
    }
  }

  /** Slot entry `i` of the image holds node `n`. */
  ghost predicate HasNode(image: seq<u8>, g: Geometry, i: nat, n: Node)
    requires ImageOk(g, image)
  {
    i < MAX_NODES && Holds(EntryAt(image, g, i), g, n)
  }

  /** An image is mounted strictly if and only if every entry in use holds a node
      and no two of them have a path or a block in common; the mount has exactly
      those nodes, the bitmap of the image and the generation asked for. */
  lemma StrictIff(g: Geometry, sb: SuperBlock, image: seq<u8>)
    requires GeomOk(g) && ImageOk(g, image)
    ensures FromSlot(g, sb, image).Some? <==>
      && (forall i | 0 <= i < MAX_NODES && EntryAt(image, g, i)[0] != 0 :: exists n :: HasNode(image, g, i, n))
      && (forall i: nat, j: nat, a, b | HasNode(image, g, i, a) && HasNode(image, g, j, b) && i != j ::
            a.path != b.path && !Share(a, b))
    ensures FromSlot(g, sb, image).Some? ==>
      var fs := FromSlot(g, sb, image).value;
      && fs.generation == sb.generation && fs.activeSlot == sb.activeSlot && !fs.readOnly && fs.handles == []
      && forall i: nat, n | i < MAX_NODES :: fs.nodes[i] == Some(n) <==> HasNode(image, g, i, n)
  {
    hide Holds, ParseEntry, EntryAt, Overlap, Share, NodeOk;
    forall i: nat, n | i < MAX_NODES
      ensures NodeAt(image, g, i) == Some(n) <==> HasNode(image, g, i, n)
      ensures NodeAt(image, g, i) == Some(n) ==> NodeOk(g, n)
    {
      EntryIff(EntryAt(image, g, i), g, n);
      if Holds(EntryAt(image, g, i), g, n) {
        HeldOk(EntryAt(image, g, i), g, n);
      }
    }
    forall i: nat | i < MAX_NODES
      ensures ParseAt(image, g, i).Corrupt? <==> EntryAt(image, g, i)[0] != 0 && !exists n :: HasNode(image, g, i, n)
    {
      EntryIff(EntryAt(image, g, i), g, Node([], File, 0, 0, 0, 0, []));
      if ParseAt(image, g, i).Good? {
        assert NodeAt(image, g, i) == Some(ParseAt(image, g, i).node);
      }
    }
    var nodes := DecodedNodes(image, g);
    forall i: nat, j: nat, a, b | HasNode(image, g, i, a) && HasNode(image, g, j, b) && i != j
      ensures Conflict(a, b) <==> a.path == b.path || Share(a, b)
      ensures Conflict(a, b) <==> Conflict(b, a)
    {
      OverlapIff(g, a, b);
      OverlapIff(g, b, a);
      ShareBoth(a, b);
    }
    ConsistentIff(image, g);
  }

  lemma HeldOk(entry: seq<u8>, g: Geometry, n: Node)
    requires Holds(entry, g, n)
    ensures NodeOk(g, n) && entry[0] != 0 && entry[252..256] == LE(Crc.Crc32(entry[..252]), 4)
  {
    hide EncodeNode, LE;
  }

  lemma ShareBoth(a: Node, b: Node)
    ensures Share(a, b) <==> Share(b, a)
  {
  }

  lemma ConsistentIff(image: seq<u8>, g: Geometry)
    requires ImageOk(g, image)
    requires forall i: nat, n | i < MAX_NODES :: NodeAt(image, g, i) == Some(n) <==> HasNode(image, g, i, n)
    requires forall i: nat, j: nat, a, b | HasNode(image, g, i, a) && HasNode(image, g, j, b) && i != j ::
      (Conflict(a, b) <==> a.path == b.path || Share(a, b)) && (Conflict(a, b) <==> Conflict(b, a))
    ensures Consistent(DecodedNodes(image, g)) <==>
      forall i: nat, j: nat, a, b | HasNode(image, g, i, a) && HasNode(image, g, j, b) && i != j ::
        a.path != b.path && !Share(a, b)
  {
    hide NodeAt, Conflict, Share, Holds;
    var nodes := DecodedNodes(image, g);
    if Consistent(nodes) {
      forall i: nat, j: nat, a, b | HasNode(image, g, i, a) && HasNode(image, g, j, b) && i != j
        ensures a.path != b.path && !Share(a, b)
      {
        assert nodes[i] == Some(a) && nodes[j] == Some(b);
        assert !Conflict(nodes[Max(i, j)].value, nodes[Min(i, j)].value);
      }
    }
    if forall i: nat, j: nat, a, b | HasNode(image, g, i, a) && HasNode(image, g, j, b) && i != j ::
         a.path != b.path && !Share(a, b) {
      forall i, j | 0 <= j < i < MAX_NODES && nodes[i].Some? && nodes[j].Some?
        ensures !Conflict(nodes[i].value, nodes[j].value)
      {
        assert HasNode(image, g, i, nodes[i].value) && HasNode(image, g, j, nodes[j].value);
      }
    }
  }

  // ---- choosing a generation -----------------------------------------------------------------------

  /** Superblock `lba` decodes and the slot it names has the checksum it records. */
  ghost predicate Backed(disk: Disk, g: Geometry, lba: nat)
    requires GeomOk(g) && |disk| == g.totalBlocks
  {
    DeriveBounds(g);
    && lba < 2 && DecodeSuper(disk[lba], g).Some?
    && var sb := DecodeSuper(disk[lba], g).value;
       Crc.Crc32(ReadSlot(disk, g, sb.activeSlot)) == sb.slotCrc
  }

  ghost function SuperAt(disk: Disk, g: Geometry, lba: nat): SuperBlock
    requires GeomOk(g) && |disk| == g.totalBlocks && Backed(disk, g, lba)
  {
    DecodeSuper(disk[lba], g).value
  }

  ghost function ImageAt(disk: Disk, g: Geometry, lba: nat): (image: seq<u8>)
    requires GeomOk(g) && |disk| == g.totalBlocks && Backed(disk, g, lba)
    ensures ImageOk(g, image)
  {
    DeriveBounds(g);
    ReadSlot(disk, g, SuperAt(disk, g, lba).activeSlot)
  }

  /** And that slot mounts strictly. */
  ghost predicate Intact(disk: Disk, g: Geometry, lba: nat)
    requires GeomOk(g) && |disk| == g.totalBlocks
  {
    Backed(disk, g, lba) && FromSlot(g, SuperAt(disk, g, lba), ImageAt(disk, g, lba)).Some?
  }

  /** The newest of the superblocks with a property, the primary of two equals. */
  ghost predicate Newest(disk: Disk, g: Geometry, lba: nat, strict: bool)
    requires GeomOk(g) && |disk| == g.totalBlocks && Backed(disk, g, lba)
  {
    forall o: nat | Backed(disk, g, o) && (strict ==> Intact(disk, g, o)) && o != lba ::
      var mine, other := SuperAt(disk, g, lba).generation, SuperAt(disk, g, o).generation;
      other < mine || (other == mine && lba < o)
  }

  lemma CandidateIs(disk: Disk, g: Geometry, lba: nat)
    requires GeomOk(g) && |disk| == g.totalBlocks && lba < 2
    ensures ReadCandidate(disk, g, lba).Some? <==> Backed(disk, g, lba)
    ensures Backed(disk, g, lba) ==>
      ReadCandidate(disk, g, lba) == Some(Candidate(SuperAt(disk, g, lba), ImageAt(disk, g, lba)))
  {
    hide DecodeSuper;
  }

  /** For every disk: the mount is read/write if and only if some superblock is
      intact, and then it is the newest intact one; read-only if and only if none
      is intact and some is backed, and then it is the newest backed one; and it
      fails if and only if none is backed. */
  lemma LoadIff(disk: Disk, g: Geometry)
    requires GeomOk(g) && |disk| == g.totalBlocks
    ensures var r := Load(disk, g);
      && (r.NotMountable? <==> !Backed(disk, g, 0) && !Backed(disk, g, 1))
      && (r.Loaded? && !r.fs.readOnly <==> Intact(disk, g, 0) || Intact(disk, g, 1))
      && (r.Loaded? && !r.fs.readOnly ==>
            exists o: nat :: Intact(disk, g, o) && Newest(disk, g, o, true)
              && FromSlot(g, SuperAt(disk, g, o), ImageAt(disk, g, o)) == Some(r.fs))
      && (r.Loaded? && r.fs.readOnly ==>
            exists o: nat :: Backed(disk, g, o) && Newest(disk, g, o, false)
              && FromSlotDegraded(g, SuperAt(disk, g, o), ImageAt(disk, g, o)) == r.fs)
  {
    hide DecodeSuper, ReadSlot, FromSlot, FromSlotDegraded, SuperAt, ImageAt, Backed, ReadCandidate, Newest;
    CandidateIs(disk, g, 0);
    CandidateIs(disk, g, 1);
    forall o: nat | Backed(disk, g, o)
      ensures o < 2
      ensures var fs := FromSlotDegraded(g, SuperAt(disk, g, o), ImageAt(disk, g, o)); fs.readOnly
      ensures var fs := FromSlot(g, SuperAt(disk, g, o), ImageAt(disk, g, o)); fs.Some? ==> !fs.value.readOnly
    {
      BackedBelow(disk, g, o);
      ReadOnlyIs(g, SuperAt(disk, g, o), ImageAt(disk, g, o));
    }
    if Intact(disk, g, 0) || Intact(disk, g, 1) {
      var o := Pick(disk, g, true);
      assert FirstStrict(g, Candidates(disk, g), 0) == FromSlot(g, SuperAt(disk, g, o), ImageAt(disk, g, o)) by {
        StrictPicks(disk, g, o);
      }
    } else {
      NoneStrict(disk, g);
      if Backed(disk, g, 0) || Backed(disk, g, 1) {
        var o := Pick(disk, g, false);
        FirstBacked(disk, g, o);
      }
    }
  }

  ghost predicate Fit(disk: Disk, g: Geometry, o: nat, strict: bool)
    requires GeomOk(g) && |disk| == g.totalBlocks
  {
    Backed(disk, g, o) && (strict ==> Intact(disk, g, o))
  }

  lemma Pick(disk: Disk, g: Geometry, strict: bool) returns (o: nat)
    requires GeomOk(g) && |disk| == g.totalBlocks && (Fit(disk, g, 0, strict) || Fit(disk, g, 1, strict))
    ensures o < 2 && Fit(disk, g, o, strict) && Newest(disk, g, o, strict)
  {
    hide SuperAt, ImageAt, DecodeSuper;
    o := if Fit(disk, g, 0, strict)
            && !(Fit(disk, g, 1, strict) && SuperAt(disk, g, 1).generation > SuperAt(disk, g, 0).generation)
         then 0 else 1;
  }

  lemma StrictPicks(disk: Disk, g: Geometry, o: nat)
    requires GeomOk(g) && |disk| == g.totalBlocks && o < 2 && Intact(disk, g, o) && Newest(disk, g, o, true)
    ensures FirstStrict(g, Candidates(disk, g), 0) == FromSlot(g, SuperAt(disk, g, o), ImageAt(disk, g, o))
  {
    hide DecodeSuper, ReadSlot, FromSlot, SuperAt, ImageAt, Backed, ReadCandidate;
    CandidateIs(disk, g, 0);
    CandidateIs(disk, g, 1);
    var cs := Candidates(disk, g);
    assert FirstStrict(g, cs, |cs|) == None;
    if Backed(disk, g, 1 - o) {
      assert Intact(disk, g, 1 - o) ==>
        var mine, other := SuperAt(disk, g, o).generation, SuperAt(disk, g, 1 - o).generation;
        other < mine || (other == mine && o < 1 - o);
      assert |cs| == 2;
      assert FirstStrict(g, cs, 1) == FromSlot(g, cs[1].super, cs[1].image);
    }
  }

  lemma NoneStrict(disk: Disk, g: Geometry)
    requires GeomOk(g) && |disk| == g.totalBlocks && !Intact(disk, g, 0) && !Intact(disk, g, 1)
    ensures FirstStrict(g, Candidates(disk, g), 0) == None
  {
    hide DecodeSuper, ReadSlot, FromSlot, SuperAt, ImageAt, Backed, ReadCandidate;
    CandidateIs(disk, g, 0);
    CandidateIs(disk, g, 1);
    var cs := Candidates(disk, g);
    assert FirstStrict(g, cs, |cs|) == None;
    if |cs| == 2 {
      assert FirstStrict(g, cs, 1) == None;
    }
  }

  lemma FirstBacked(disk: Disk, g: Geometry, o: nat)
    requires GeomOk(g) && |disk| == g.totalBlocks && o < 2 && Backed(disk, g, o) && Newest(disk, g, o, false)
    ensures var cs := Candidates(disk, g);
      cs != [] && cs[0] == Candidate(SuperAt(disk, g, o), ImageAt(disk, g, o))
  {
    hide DecodeSuper, ReadSlot, SuperAt, ImageAt, Backed, ReadCandidate;
    CandidateIs(disk, g, 0);
    CandidateIs(disk, g, 1);
    assert Backed(disk, g, 1 - o) ==>
      var mine, other := SuperAt(disk, g, o).generation, SuperAt(disk, g, 1 - o).generation;
      other < mine || (other == mine && o < 1 - o);
  }

  lemma BackedBelow(disk: Disk, g: Geometry, o: nat)
    requires GeomOk(g) && |disk| == g.totalBlocks && Backed(disk, g, o)
    ensures o < 2
  {
  }

  lemma ReadOnlyIs(g: Geometry, sb: SuperBlock, image: seq<u8>)
    requires ImageOk(g, image)
    ensures FromSlotDegraded(g, sb, image).readOnly
    ensures FromSlot(g, sb, image).Some? ==> !FromSlot(g, sb, image).value.readOnly
  {
  }
}
