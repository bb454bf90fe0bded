/** DunitFS v2 on-disk format: geometry, superblock, node entries and the
    metadata slot image, with the round trips the loader depends on. */
module FsFormat {
  import opened Bytes
  import Crc

  const BLOCK_SIZE: nat := 512
  const MAX_NODES: nat := 64
  const NODE_SIZE: nat := 256
  const PATH_SIZE: nat := 120
  const MAX_EXTENTS: nat := 6
  const NODE_TABLE_BLOCKS: nat := 32
  const VERSION: nat := 2
  const MAGIC: seq<u8> := [68, 85, 78, 73, 84, 70, 83, 50]

  type Block = b: seq<u8> | |b| == 512 witness Zeros(512)
  type Disk = seq<Block>
  type Path = seq<u8>

  // ---- geometry ------------------------------------------------------------

  datatype Geometry = Geometry(
    totalBlocks: nat, bitmapBlocks: nat, slotBlocks: nat,
    slot0Start: nat, slot1Start: nat, dataStart: nat)
  {
    function SlotStart(slot: nat): nat {
      if slot == 0 then slot0Start else slot1Start
    }

    function BitmapLen(): nat { bitmapBlocks * BLOCK_SIZE }

    function SlotBytes(): nat { slotBlocks * BLOCK_SIZE }
  }

  function CeilDiv(a: nat, b: nat): nat
    requires b > 0
  {
    (a + b - 1) / b
  }

  function Derive(totalBlocks: nat): Geometry {
    var bitmapBytes := CeilDiv(totalBlocks, 8);
    var bitmapBlocks := CeilDiv(bitmapBytes, BLOCK_SIZE);
    var slotBlocks := bitmapBlocks + NODE_TABLE_BLOCKS;
    Geometry(totalBlocks, bitmapBlocks, slotBlocks, 2, 2 + slotBlocks, 2 + 2 * slotBlocks)
  }

  /** A geometry that a partition of its size passes validation with. */
  ghost predicate GeomOk(g: Geometry) {
    && g.totalBlocks < 0x1_0000_0000_0000_0000
    && g == Derive(g.totalBlocks)
    && g.dataStart < g.totalBlocks
  }

  // ---- superblock ----------------------------------------------------------

  datatype SuperBlock = SuperBlock(generation: nat, activeSlot: nat, slotCrc: nat)

  ghost predicate SuperOk(sb: SuperBlock) {
    sb.generation < 0x1_0000_0000_0000_0000 && sb.activeSlot <= 1 && sb.slotCrc < 0x1_0000_0000
  }

  function SuperBody(sb: SuperBlock, g: Geometry): (s: seq<u8>)
    ensures |s| == 508
  {
    var t := LE(sb.slotCrc, 4) + Zeros(416);
    var t := LE(g.dataStart, 8) + t;
    var t := LE(g.slot1Start, 8) + t;
    var t := LE(g.slot0Start, 8) + t;
    var t := Zeros(4) + t;
    var t := LE(PATH_SIZE, 4) + t;
    var t := LE(MAX_EXTENTS, 4) + t;
    var t := LE(g.slotBlocks, 4) + t;
    var t := LE(g.bitmapBlocks, 4) + t;
    var t := LE(NODE_SIZE, 4) + t;
    var t := LE(MAX_NODES, 4) + t;
    var t := LE(sb.activeSlot, 4) + t;
    var t := LE(sb.generation, 8) + t;
    var t := LE(g.totalBlocks, 8) + t;
    var t := LE(BLOCK_SIZE, 4) + t;
    var t := LE(VERSION, 4) + t;
    MAGIC + t
  }

  function EncodeSuper(sb: SuperBlock, g: Geometry): Block {
    SuperBody(sb, g) + LE(Crc.Crc32(SuperBody(sb, g)), 4)
  }

  function Field(s: seq<u8>, offset: nat, n: nat): nat
    requires offset + n <= |s|
  {
    FromLE(s[offset..offset + n])
  }

  function DecodeSuper(b: Block, g: Geometry): Option<SuperBlock> {
    if b[..8] != MAGIC
       || Field(b, 8, 4) != VERSION
       || Field(b, 12, 4) != BLOCK_SIZE
       || Field(b, 16, 8) != g.totalBlocks
       || Field(b, 36, 4) != MAX_NODES
       || Field(b, 40, 4) != NODE_SIZE
       || Field(b, 44, 4) != g.bitmapBlocks % 0x1_0000_0000
       || Field(b, 48, 4) != g.slotBlocks % 0x1_0000_0000
       || Field(b, 52, 4) != MAX_EXTENTS
       || Field(b, 56, 4) != PATH_SIZE
       || Field(b, 64, 8) != g.slot0Start
       || Field(b, 72, 8) != g.slot1Start
       || Field(b, 80, 8) != g.dataStart
       || Field(b, 508, 4) != Crc.Crc32(b[..508])
    then None
    else if Field(b, 32, 4) > 1 then None
    else Some(SuperBlock(Field(b, 24, 8), Field(b, 32, 4), Field(b, 88, 4)))
  }

  /** A field holds a number, cut to its width, iff its bytes are the encoding. */
  lemma FieldIs(b: seq<u8>, at: nat, n: nat, x: nat)
    requires at + n <= |b|
    ensures Field(b, at, n) == x % Pow256(n) <==> b[at..at + n] == LE(x, n)
  {
    LEOfFromLE(b[at..at + n]);
    FromLEOfLE(x, n);
    LEMod(x, n);
  }

  lemma Field16(b: seq<u8>, at: nat, x: u16)
    requires at + 2 <= |b|
    ensures Field(b, at, 2) == x <==> b[at..at + 2] == LE(x, 2)
  {
    FieldIs(b, at, 2, x);
    Pow256Values();
  }

  lemma Field32(b: seq<u8>, at: nat, x: nat)
    requires at + 4 <= |b|
    ensures Field(b, at, 4) == x % 0x1_0000_0000 <==> b[at..at + 4] == LE(x, 4)
    ensures Field(b, at, 4) < 0x1_0000_0000
  {
    FieldIs(b, at, 4, x);
    FromLEBound(b[at..at + 4]);
    Pow256Values();
  }

  lemma Field64(b: seq<u8>, at: nat, x: u64)
    requires at + 8 <= |b|
    ensures Field(b, at, 8) == x <==> b[at..at + 8] == LE(x, 8)
    ensures Field(b, at, 8) < 0x1_0000_0000_0000_0000
  {
    FieldIs(b, at, 8, x);
    FromLEBound(b[at..at + 8]);
    Pow256Values();
  }

  /** Two byte strings that agree on adjacent ranges agree on both. */
  lemma AgreeOn(a: seq<u8>, b: seq<u8>, lo: nat, mid: nat, hi: nat)
    requires lo <= mid <= hi <= |a| && hi <= |b| && a[lo..mid] == b[lo..mid] && a[mid..hi] == b[mid..hi]
    ensures a[lo..hi] == b[lo..hi]
  {
    assert a[lo..hi] == a[lo..mid] + a[mid..hi] && b[lo..hi] == b[lo..mid] + b[mid..hi];
  }

  lemma AgreeIn(a: seq<u8>, b: seq<u8>, lo: nat, hi: nat, x: nat, y: nat)
    requires lo <= x <= y <= hi <= |a| && hi <= |b| && a[lo..hi] == b[lo..hi]
    ensures a[x..y] == b[x..y]
  {
    SliceSlice(a, lo, hi, x - lo, y - lo);
    SliceSlice(b, lo, hi, x - lo, y - lo);
  }

  /** If `s` reads `p` then `t` from position `k`, then `p` is that field and
      `t` is what follows it. */
  lemma Peel(s: seq<u8>, k: nat, p: seq<u8>, t: seq<u8>)
    requires k <= |s| && s[k..] == p + t
    ensures k + |p| <= |s| && s[k..k + |p|] == p && s[k + |p|..] == t
  {
    assert |s[k..]| == |p| + |t|;
    assert s[k..k + |p|] == s[k..][..|p|];
    assert s[k + |p|..] == s[k..][|p|..];
  }

  lemma SliceSlice(s: seq<u8>, a: nat, b: nat, i: nat, j: nat)
    requires a <= b <= |s| && i <= j <= b - a
    ensures s[a..b][i..j] == s[a + i..a + j]
  {
    var l, r := s[a..b][i..j], s[a + i..a + j];
    assert |l| == |r|;
    forall k | 0 <= k < |l|
      ensures l[k] == r[k]
    {
      assert l[k] == s[a..b][i + k] == s[a + i + k];
    }
  }

  lemma SuperFields(s: seq<u8>, sb: SuperBlock, g: Geometry, c: seq<u8>)
    requires s == SuperBody(sb, g) + c
    ensures s[..8] == MAGIC
    ensures s[8..12] == LE(VERSION, 4) && s[12..16] == LE(BLOCK_SIZE, 4)
    ensures s[16..24] == LE(g.totalBlocks, 8) && s[24..32] == LE(sb.generation, 8)
    ensures s[32..36] == LE(sb.activeSlot, 4) && s[36..40] == LE(MAX_NODES, 4)
    ensures s[40..44] == LE(NODE_SIZE, 4) && s[44..48] == LE(g.bitmapBlocks, 4)
    ensures s[48..52] == LE(g.slotBlocks, 4) && s[52..56] == LE(MAX_EXTENTS, 4)
    ensures s[56..60] == LE(PATH_SIZE, 4) && s[64..72] == LE(g.slot0Start, 8)
    ensures s[72..80] == LE(g.slot1Start, 8) && s[80..88] == LE(g.dataStart, 8)
    ensures s[88..92] == LE(sb.slotCrc, 4)
  {
    hide LE, Zeros;
    var t16 := LE(sb.slotCrc, 4) + Zeros(416);
    var t15 := LE(g.dataStart, 8) + t16;
    var t14 := LE(g.slot1Start, 8) + t15;
    var t13 := LE(g.slot0Start, 8) + t14;
    var t12 := Zeros(4) + t13;
    var t11 := LE(PATH_SIZE, 4) + t12;
    var t10 := LE(MAX_EXTENTS, 4) + t11;
    var t9 := LE(g.slotBlocks, 4) + t10;
    var t8 := LE(g.bitmapBlocks, 4) + t9;
    var t7 := LE(NODE_SIZE, 4) + t8;
    var t6 := LE(MAX_NODES, 4) + t7;
    var t5 := LE(sb.activeSlot, 4) + t6;
    var t4 := LE(sb.generation, 8) + t5;
    var t3 := LE(g.totalBlocks, 8) + t4;
    var t2 := LE(BLOCK_SIZE, 4) + t3;
    var t1 := LE(VERSION, 4) + t2;
    var b := SuperBody(sb, g);
    assert b[0..] == b == MAGIC + t1;
    Peel(b, 0, MAGIC, t1);
    Peel(b, 8, LE(VERSION, 4), t2);
    Peel(b, 12, LE(BLOCK_SIZE, 4), t3);
    Peel(b, 16, LE(g.totalBlocks, 8), t4);
    Peel(b, 24, LE(sb.generation, 8), t5);
    Peel(b, 32, LE(sb.activeSlot, 4), t6);
    Peel(b, 36, LE(MAX_NODES, 4), t7);
    Peel(b, 40, LE(NODE_SIZE, 4), t8);
    Peel(b, 44, LE(g.bitmapBlocks, 4), t9);
    Peel(b, 48, LE(g.slotBlocks, 4), t10);
    Peel(b, 52, LE(MAX_EXTENTS, 4), t11);
    Peel(b, 56, LE(PATH_SIZE, 4), t12);
    Peel(b, 60, Zeros(4), t13);
    Peel(b, 64, LE(g.slot0Start, 8), t14);
    Peel(b, 72, LE(g.slot1Start, 8), t15);
    Peel(b, 80, LE(g.dataStart, 8), t16);
    Peel(b, 88, LE(sb.slotCrc, 4), Zeros(416));
    forall i, j | 0 <= i <= j <= 508
      ensures s[i..j] == b[i..j]
    {
    }
  }

  lemma DeriveBounds(g: Geometry)
    requires GeomOk(g)
    ensures g.bitmapBlocks < g.slotBlocks < g.slot1Start < g.dataStart < 0x1_0000_0000_0000_0000
    ensures g.dataStart == 2 + 2 * g.slotBlocks && g.slot1Start == 2 + g.slotBlocks
    ensures g.totalBlocks <= g.BitmapLen() * 8
  {
  }

  lemma DecodeSuperFields(b: Block, sb: SuperBlock, g: Geometry)
    requires b[..8] == MAGIC && Field(b, 8, 4) == VERSION && Field(b, 12, 4) == BLOCK_SIZE
    requires Field(b, 16, 8) == g.totalBlocks && Field(b, 24, 8) == sb.generation
    requires Field(b, 32, 4) == sb.activeSlot <= 1 && Field(b, 36, 4) == MAX_NODES
    requires Field(b, 40, 4) == NODE_SIZE && Field(b, 44, 4) == g.bitmapBlocks % 0x1_0000_0000
    requires Field(b, 48, 4) == g.slotBlocks % 0x1_0000_0000 && Field(b, 52, 4) == MAX_EXTENTS
    requires Field(b, 56, 4) == PATH_SIZE && Field(b, 64, 8) == g.slot0Start
    requires Field(b, 72, 8) == g.slot1Start && Field(b, 80, 8) == g.dataStart
    requires Field(b, 88, 4) == sb.slotCrc && Field(b, 508, 4) == Crc.Crc32(b[..508])
    ensures DecodeSuper(b, g) == Some(sb)
  {
  }

  /** A published superblock reads back as itself. */
  lemma SuperRoundTrip(sb: SuperBlock, g: Geometry)
    requires GeomOk(g) && SuperOk(sb)
    ensures DecodeSuper(EncodeSuper(sb, g), g) == Some(sb)
  {
    var body := SuperBody(sb, g);
    var c := LE(Crc.Crc32(body), 4);
    var b := EncodeSuper(sb, g);
    SuperFields(b, sb, g, c);
    DeriveBounds(g);
    assert b[..508] == body && b[508..512] == c;
    LE32(Crc.Crc32(body));
    LE32(VERSION); LE32(BLOCK_SIZE); LE32(MAX_NODES); LE32(NODE_SIZE); LE32(MAX_EXTENTS); LE32(PATH_SIZE);
    LE64(g.totalBlocks); LE64(sb.generation); LE32(sb.activeSlot); LE32(sb.slotCrc);
    LE64(g.slot0Start); LE64(g.slot1Start); LE64(g.dataStart);
    LETruncates32(g.bitmapBlocks);
    LETruncates32(g.slotBlocks);
    DecodeSuperFields(b, sb, g);
  }

  lemma LETruncates32(x: nat)
    ensures FromLE(LE(x, 4)) == x % 0x1_0000_0000
  {
    FromLEOfLE(x, 4);
    Pow256Values();
  }
}
