/** Node entries and the metadata slot image (allocation bitmap followed by the
    node table): encoding, decoding and their round trips. */
module FsNode {
  import opened Bytes
  import opened FsFormat
  import Crc
  import Utf8

  datatype FileType = File | Directory | Device

  datatype Extent = Extent(start: nat, len: nat)

  datatype Node = Node(
    path: Path, fileType: FileType, mode: u16, size: nat,
    ctime: u64, mtime: u64, extents: seq<Extent>)

  type Nodes = s: seq<Option<Node>> | |s| == MAX_NODES witness seq(MAX_NODES, i => None)

  function AllocatedIn(ext: seq<Extent>, k: nat): nat
    requires k <= |ext|
  {
    if k == 0 then 0 else AllocatedIn(ext, k - 1) + ext[k - 1].len
  }

  /** Number of blocks a file owns. */
  function Allocated(ext: seq<Extent>): nat { AllocatedIn(ext, |ext|) }

  predicate ExtentOk(g: Geometry, e: Extent) {
    e.len > 0 && g.dataStart <= e.start && e.start + e.len <= g.totalBlocks
  }

  /** What decoding demands of a stored node. */
  ghost predicate NodeOk(g: Geometry, n: Node) {
    match n
    case Node(path, fileType, _, size, _, _, extents) =>
      && 0 < |path| <= PATH_SIZE && Utf8.Valid(path)
      && fileType != Device
      && (fileType == Directory ==> size == 0 && extents == [])
      && |extents| <= MAX_EXTENTS
      && (forall k | 0 <= k < |extents| :: ExtentOk(g, extents[k]))
      && size <= Allocated(extents) * BLOCK_SIZE
      && size < 0x1_0000_0000_0000_0000
  }

  // ---- one node entry ------------------------------------------------------

  function ExtentSlot(ext: seq<Extent>, i: nat): Extent {
    if i < |ext| then ext[i] else Extent(0, 0)
  }

  function ExtentTable(ext: seq<Extent>, i: nat): (s: seq<u8>)
    requires i <= MAX_EXTENTS
    ensures |s| == (MAX_EXTENTS - i) * 16
    decreases MAX_EXTENTS - i, ext
  {
    if i == MAX_EXTENTS then []
    else LE(ExtentSlot(ext, i).start, 8) + (LE(ExtentSlot(ext, i).len, 8) + ExtentTable(ext, i + 1))
  }

  function TypeByte(t: FileType): u8 {
    match t case File => 1 case Directory => 2 case Device => 1
  }

  function NodeBody(n: Node): (s: seq<u8>)
    requires |n.path| <= PATH_SIZE && |n.extents| <= MAX_EXTENTS
    ensures |s| == 252
  {
    var t := n.path + Zeros(PATH_SIZE - |n.path|);
    var t := Zeros(2) + t;
    var t := LE(|n.path|, 2) + t;
    var t := ExtentTable(n.extents, 0) + t;
    var t := LE(n.mtime, 8) + t;
    var t := LE(n.ctime, 8) + t;
    var t := LE(n.size, 8) + t;
    var t := Zeros(3) + t;
    var t := [|n.extents| as u8] + t;
    var t := LE(n.mode, 2) + t;
    [1, TypeByte(n.fileType)] + t
  }

  function EncodeNode(n: Node): (s: seq<u8>)
    requires |n.path| <= PATH_SIZE && |n.extents| <= MAX_EXTENTS
    ensures |s| == NODE_SIZE
  {
    NodeBody(n) + LE(Crc.Crc32(NodeBody(n)), 4)
  }

  function ReadExtent(entry: seq<u8>, i: nat): Extent
    requires |entry| == NODE_SIZE && i < MAX_EXTENTS
  {
    Extent(Field(entry, 32 + i * 16, 8), Field(entry, 40 + i * 16, 8))
  }

  function ReadExtents(entry: seq<u8>, count: nat): seq<Extent>
    requires |entry| == NODE_SIZE && count <= MAX_EXTENTS
  {
    seq(count, i requires 0 <= i < count => ReadExtent(entry, i))
  }

  predicate ExtentsDecode(entry: seq<u8>, count: nat, g: Geometry)
    requires |entry| == NODE_SIZE
  {
    && count <= MAX_EXTENTS
    && forall i | 0 <= i < MAX_EXTENTS ::
         if i < count then
           && ReadExtent(entry, i).start + ReadExtent(entry, i).len < 0x1_0000_0000_0000_0000
           && ExtentOk(g, ReadExtent(entry, i))
         else ReadExtent(entry, i) == Extent(0, 0)
  }

  /** Saturating product, as the size check computes it. */
  function SatMul(a: nat, b: nat): nat {
    if a * b < 0x1_0000_0000_0000_0000 then a * b else 0xffff_ffff_ffff_ffff
  }

  function DecodeNode(entry: seq<u8>, g: Geometry): Option<Node>
    requires |entry| == NODE_SIZE
  {
    if entry[1] != 1 && entry[1] != 2 then None
    else
      var fileType := if entry[1] == 1 then File else Directory;
      var count := entry[4] as nat;
      if !ExtentsDecode(entry, count, g) then None
      else
        var size := Field(entry, 8, 8);
        var extents := ReadExtents(entry, count);
        var pathLen := Field(entry, 128, 2);
        if pathLen == 0 || pathLen > PATH_SIZE then None
        else if !Utf8.Valid(entry[132..132 + pathLen]) then None
        else if fileType == Directory && (size != 0 || count != 0) then None
        else if size > SatMul(Allocated(extents), BLOCK_SIZE) then None
        else
          var mode := Field(entry, 2, 2);
          var ctime := Field(entry, 16, 8);
          var mtime := Field(entry, 24, 8);
          FieldBounds(entry);
          Some(Node(entry[132..132 + pathLen], fileType, mode, size, ctime, mtime, extents))
  }

  lemma FieldBounds(entry: seq<u8>)
    requires |entry| == NODE_SIZE
    ensures Field(entry, 2, 2) < 0x1_0000
    ensures Field(entry, 8, 8) < 0x1_0000_0000_0000_0000
    ensures Field(entry, 16, 8) < 0x1_0000_0000_0000_0000
    ensures Field(entry, 24, 8) < 0x1_0000_0000_0000_0000
  {
    Pow256Values();
    FromLEBound(entry[2..4]);
    FromLEBound(entry[8..16]);
    FromLEBound(entry[16..24]);
    FromLEBound(entry[24..32]);
  }

  lemma DecodeSound(entry: seq<u8>, g: Geometry)
    requires |entry| == NODE_SIZE && DecodeNode(entry, g).Some?
    ensures NodeOk(g, DecodeNode(entry, g).value)
  {
    FieldBounds(entry);
  }

  lemma {:induction false} ExtentTableAt(ext: seq<Extent>, i: nat, k: nat)
    requires i <= k < MAX_EXTENTS
    ensures var s := ExtentTable(ext, i); var o := (k - i) * 16;
      s[o..o + 8] == LE(ExtentSlot(ext, k).start, 8) && s[o + 8..o + 16] == LE(ExtentSlot(ext, k).len, 8)
    decreases k - i
  {
    var s := ExtentTable(ext, i);
    var t := LE(ExtentSlot(ext, i).len, 8) + ExtentTable(ext, i + 1);
    assert s[0..] == s;
    Peel(s, 0, LE(ExtentSlot(ext, i).start, 8), t);
    Peel(s, 8, LE(ExtentSlot(ext, i).len, 8), ExtentTable(ext, i + 1));
    if i < k {
      ExtentTableAt(ext, i + 1, k);
      var o := (k - i - 1) * 16;
      assert s[16..][o..o + 8] == s[o + 16..o + 24];
      assert s[16..][o + 8..o + 16] == s[o + 24..o + 32];
    }
  }

  lemma NodeFields(n: Node)
    requires |n.path| <= PATH_SIZE && |n.extents| <= MAX_EXTENTS
    ensures var s := NodeBody(n);
      && s[0] == 1 && s[1] == TypeByte(n.fileType) && s[2..4] == LE(n.mode, 2)
      && s[4] == |n.extents| as u8 && s[8..16] == LE(n.size, 8)
      && s[16..24] == LE(n.ctime, 8) && s[24..32] == LE(n.mtime, 8)
      && s[32..128] == ExtentTable(n.extents, 0)
      && s[128..130] == LE(|n.path|, 2) && s[132..132 + |n.path|] == n.path
  {
    var t10 := n.path + Zeros(PATH_SIZE - |n.path|);
    var t9 := Zeros(2) + t10;
    var t8 := LE(|n.path|, 2) + t9;
    var t7 := ExtentTable(n.extents, 0) + t8;
    var t6 := LE(n.mtime, 8) + t7;
    var t5 := LE(n.ctime, 8) + t6;
    var t4 := LE(n.size, 8) + t5;
    var t3 := Zeros(3) + t4;
    var t2 := [|n.extents| as u8] + t3;
    var t1 := LE(n.mode, 2) + t2;
    var b := NodeBody(n);
    var h := [1, TypeByte(n.fileType)];
    assert b[0..] == b == h + t1;
    Peel(b, 0, h, t1);
    Peel(b, 2, LE(n.mode, 2), t2);
    Peel(b, 4, [|n.extents| as u8], t3);
    Peel(b, 5, Zeros(3), t4);
    Peel(b, 8, LE(n.size, 8), t5);
    Peel(b, 16, LE(n.ctime, 8), t6);
    Peel(b, 24, LE(n.mtime, 8), t7);
    Peel(b, 32, ExtentTable(n.extents, 0), t8);
    Peel(b, 128, LE(|n.path|, 2), t9);
    Peel(b, 130, Zeros(2), t10);
    Peel(b, 132, n.path, Zeros(PATH_SIZE - |n.path|));
    assert b[4..5][0] == b[4];
  }

  lemma EntryFields(n: Node)
    requires |n.path| <= PATH_SIZE && |n.extents| <= MAX_EXTENTS
    ensures var s := EncodeNode(n);
      && s[0] == 1 && s[1] == TypeByte(n.fileType) && s[2..4] == LE(n.mode, 2)
      && s[4] == |n.extents| as u8 && s[8..16] == LE(n.size, 8)
      && s[16..24] == LE(n.ctime, 8) && s[24..32] == LE(n.mtime, 8)
      && s[32..128] == ExtentTable(n.extents, 0)
      && s[128..130] == LE(|n.path|, 2) && s[132..132 + |n.path|] == n.path
      && s[..252] == NodeBody(n) && s[252..256] == LE(Crc.Crc32(NodeBody(n)), 4)
  {
    hide ExtentTable, LE, TypeByte;
    var b := NodeBody(n);
    var s := EncodeNode(n);
    NodeFields(n);
    assert s[2..4] == b[2..4] && s[8..16] == b[8..16] && s[16..24] == b[16..24];
    assert s[24..32] == b[24..32] && s[32..128] == b[32..128] && s[128..130] == b[128..130];
    assert s[132..132 + |n.path|] == b[132..132 + |n.path|];
  }

  lemma TableExtent(e: seq<u8>, ext: seq<Extent>, i: nat)
    requires |e| == NODE_SIZE && i < MAX_EXTENTS && e[32..128] == ExtentTable(ext, 0)
    requires ExtentSlot(ext, i).start < 0x1_0000_0000_0000_0000
    requires ExtentSlot(ext, i).len < 0x1_0000_0000_0000_0000
    ensures ReadExtent(e, i) == ExtentSlot(ext, i)
  {
    ExtentTableAt(ext, 0, i);
    var o := 32 + i * 16;
    SliceSlice(e, 32, 128, i * 16, i * 16 + 8);
    SliceSlice(e, 32, 128, i * 16 + 8, i * 16 + 16);
    assert o == 32 + (i * 16) && o + 8 == 32 + (i * 16 + 8) && o + 16 == 32 + (i * 16 + 16);
    LE64(ExtentSlot(ext, i).start);
    LE64(ExtentSlot(ext, i).len);
  }

  lemma DecodeFields(e: seq<u8>, n: Node, g: Geometry)
    requires |e| == NODE_SIZE && GeomOk(g) && NodeOk(g, n)
    requires e[1] == TypeByte(n.fileType) && Field(e, 2, 2) == n.mode
    requires e[4] == |n.extents| as u8 && Field(e, 8, 8) == n.size
    requires Field(e, 16, 8) == n.ctime && Field(e, 24, 8) == n.mtime
    requires forall i | 0 <= i < MAX_EXTENTS :: ReadExtent(e, i) == ExtentSlot(n.extents, i)
    requires Field(e, 128, 2) == |n.path| && e[132..132 + |n.path|] == n.path
    ensures DecodeNode(e, g) == Some(n)
  {
    assert ReadExtents(e, |n.extents|) == n.extents;
  }

  /** A node the file system may hold survives encoding and decoding. */
  lemma NodeRoundTrip(n: Node, g: Geometry)
    requires GeomOk(g) && NodeOk(g, n)
    ensures var e := EncodeNode(n);
      && e[0] != 0 && Field(e, 252, 4) == Crc.Crc32(e[..252]) && DecodeNode(e, g) == Some(n)
  {
    var e := EncodeNode(n);
    EntryFields(n);
    forall i | 0 <= i < MAX_EXTENTS
      ensures ReadExtent(e, i) == ExtentSlot(n.extents, i)
    {
      TableExtent(e, n.extents, i);
    }
    LE32(Crc.Crc32(NodeBody(n)));
    LE16(n.mode); LE16(|n.path|);
    LE64(n.size); LE64(n.ctime); LE64(n.mtime);
    DecodeFields(e, n, g);
  }

  // ---- the slot image ------------------------------------------------------

  function Entry(n: Option<Node>): (s: seq<u8>)
    requires n.Some? ==> |n.value.path| <= PATH_SIZE && |n.value.extents| <= MAX_EXTENTS
    ensures |s| == NODE_SIZE
  {
    match n case None => Zeros(NODE_SIZE) case Some(node) => EncodeNode(node)
  }

  ghost predicate NodesOk(g: Geometry, nodes: Nodes) {
    forall i | 0 <= i < MAX_NODES && nodes[i].Some? :: NodeOk(g, nodes[i].value)
  }

  function NodeTable(nodes: Nodes): (s: seq<u8>)
    requires forall i | 0 <= i < MAX_NODES && nodes[i].Some? ::
      |nodes[i].value.path| <= PATH_SIZE && |nodes[i].value.extents| <= MAX_EXTENTS
    ensures |s| == NODE_TABLE_BLOCKS * BLOCK_SIZE
  {
    seq(MAX_NODES * NODE_SIZE,
      p requires 0 <= p < MAX_NODES * NODE_SIZE => Entry(nodes[p / NODE_SIZE])[p % NODE_SIZE])
  }

  function Serialize(bitmap: seq<u8>, nodes: Nodes): seq<u8>
    requires forall i | 0 <= i < MAX_NODES && nodes[i].Some? ::
      |nodes[i].value.path| <= PATH_SIZE && |nodes[i].value.extents| <= MAX_EXTENTS
  {
    bitmap + NodeTable(nodes)
  }

  function EntryAt(image: seq<u8>, g: Geometry, i: nat): (s: seq<u8>)
    requires |image| == g.BitmapLen() + MAX_NODES * NODE_SIZE && i < MAX_NODES
    ensures |s| == NODE_SIZE
  {
    image[g.BitmapLen() + i * NODE_SIZE..g.BitmapLen() + (i + 1) * NODE_SIZE]
  }

  lemma TableEntry(nodes: Nodes, i: nat, q: nat)
    requires forall i | 0 <= i < MAX_NODES && nodes[i].Some? ::
      |nodes[i].value.path| <= PATH_SIZE && |nodes[i].value.extents| <= MAX_EXTENTS
    requires i < MAX_NODES && q < NODE_SIZE
    ensures NodeTable(nodes)[i * NODE_SIZE + q] == Entry(nodes[i])[q]
  {
    var p := i * NODE_SIZE + q;
    assert p / NODE_SIZE == i && p % NODE_SIZE == q;
  }

  lemma SerializedEntry(bitmap: seq<u8>, nodes: Nodes, g: Geometry, i: nat)
    requires NodesOk(g, nodes) && |bitmap| == g.BitmapLen() && i < MAX_NODES
    ensures EntryAt(Serialize(bitmap, nodes), g, i) == Entry(nodes[i])
  {
    hide Entry, NodeTable;
    var t := NodeTable(nodes);
    var e := EntryAt(bitmap + t, g, i);
    var w := Entry(nodes[i]);
    forall q | 0 <= q < NODE_SIZE
      ensures e[q] == w[q]
    {
      TableEntry(nodes, i, q);
      assert e[q] == (bitmap + t)[|bitmap| + i * NODE_SIZE + q] == t[i * NODE_SIZE + q];
    }
  }

  /** What one 256-byte entry holds. */
  datatype Parsed = Unused | Corrupt | Good(node: Node)

  function ParseEntry(entry: seq<u8>, g: Geometry): Parsed
    requires |entry| == NODE_SIZE
  {
    if entry[0] == 0 then Unused
    else if Field(entry, 252, 4) != Crc.Crc32(entry[..252]) then Corrupt
    else match DecodeNode(entry, g)
      case None => Corrupt
      case Some(node) => Good(node)
  }

  function ParseAt(image: seq<u8>, g: Geometry, i: nat): Parsed
    requires |image| == g.BitmapLen() + MAX_NODES * NODE_SIZE && i < MAX_NODES
  {
    ParseEntry(EntryAt(image, g, i), g)
  }

  lemma SerializedParse(bitmap: seq<u8>, nodes: Nodes, g: Geometry, i: nat)
    requires GeomOk(g) && NodesOk(g, nodes) && |bitmap| == g.BitmapLen() && i < MAX_NODES
    ensures ParseAt(Serialize(bitmap, nodes), g, i)
         == if nodes[i].Some? then Good(nodes[i].value) else Unused
  {
    SerializedEntry(bitmap, nodes, g, i);
    if nodes[i].Some? {
      NodeRoundTrip(nodes[i].value, g);
    }
  }
}
