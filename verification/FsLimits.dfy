/** Calls that break the volume's invariants or leave something behind when they
    fail, on concrete volumes. */
module FsLimits {
  import opened Bytes
  import opened FsFormat
  import opened FsNode
  import opened FsAlloc
  import opened FsSpace
  import opened FsTree
  import opened FsOps
  import opened FsInv
  import opened FsStep
  import opened FsLoad
  import opened FsCrash
  import opened FsRuns
  import opened FsHistory
  import opened FsDurable
  import opened FsTorn
  import Utf8

  // ---- a shrink that fails -----------------------------------------------------------

  const TOTAL: nat := 200
  const DATA: nat := 68

  /** Seven one-block files with a free block before each, then a file of eight
      blocks. */
  function HoleyNode(i: nat): Option<Node> {
    if i < 7 then Some(Node([97 + i as u8], File, 0, 0, 0, 0, [Extent(DATA + 1 + 2 * i, 1)]))
    else if i == 7 then Some(Node([104], File, 0, 8 * BLOCK_SIZE, 0, 0, [Extent(DATA + 14, 8)]))
    else None
  }

  function HoleyNodes(): Nodes { seq(MAX_NODES, i requires 0 <= i < MAX_NODES => HoleyNode(i)) }

  function HoleyUsed(): set<nat> {
    set b | 0 <= b < DATA + 22 && (b < DATA || b >= DATA + 14 || b % 2 == 1)
  }

  function Holey(): Fs { Fs(Derive(TOTAL), 1, 0, HoleyUsed(), HoleyNodes(), [], 1, false, false) }

  lemma Geometry200()
    ensures GeomOk(Derive(TOTAL)) && Derive(TOTAL).dataStart == DATA && Derive(TOTAL).BitmapLen() == BLOCK_SIZE
  {
  }

  lemma OneExtent(start: nat, len: nat)
    ensures Blocks([Extent(start, len)]) == Range(start, len) && Allocated([Extent(start, len)]) == len
    ensures forall b :: b in Blocks([Extent(start, len)]) <==> start <= b < start + len
    ensures NoDup(Blocks([Extent(start, len)]))
  {
    var ext := [Extent(start, len)];
    assert BlocksIn(ext, 0) == [];
    assert Blocks(ext) == BlocksIn(ext, 1) == Range(start, len);
    forall b | start <= b < start + len
      ensures b in Range(start, len)
    {
      assert Range(start, len)[b - start] == b;
    }
    RangeNoDup(start, len, len);
  }

  /** Where the blocks of each node are. */
  ghost function StartOf(i: nat): nat { if i < 7 then DATA + 1 + 2 * i else DATA + 14 }

  ghost function EndOf(i: nat): nat { if i < 7 then DATA + 2 + 2 * i else if i == 7 then DATA + 22 else DATA + 14 }

  lemma HoleyBlocks(i: nat)
    requires i < MAX_NODES
    ensures NoDup(BlocksOf(HoleyNodes(), i))
    ensures forall b :: b in BlocksOf(HoleyNodes(), i) <==> StartOf(i) <= b < EndOf(i)
  {
    OneExtent(StartOf(i), EndOf(i) - StartOf(i));
  }

  lemma HoleyAlloc()
    ensures AllocOk(Derive(TOTAL), HoleyUsed(), HoleyNodes())
  {
    hide BlocksOf, HoleyNodes, NoDup;
    Geometry200();
    forall i | 0 <= i < MAX_NODES
      ensures NoDup(BlocksOf(HoleyNodes(), i))
      ensures forall b :: b in BlocksOf(HoleyNodes(), i) <==> StartOf(i) <= b < EndOf(i)
    {
      HoleyBlocks(i);
    }
    forall b | DATA <= b < TOTAL
      ensures b in HoleyUsed() <==> Owned(HoleyNodes(), b)
    {
      if b in HoleyUsed() {
        var i := if b >= DATA + 14 then 7 else (b - DATA - 1) / 2;
        assert b in BlocksOf(HoleyNodes(), i);
      }
    }
  }

  lemma HoleyNodesOk()
    ensures NodesOk(Derive(TOTAL), HoleyNodes()) && TreeOk(HoleyNodes())
  {
    Geometry200();
    forall i | 0 <= i < MAX_NODES && HoleyNodes()[i].Some?
      ensures NodeOk(Derive(TOTAL), HoleyNodes()[i].value)
      ensures IsClean(HoleyNodes()[i].value.path) && ParentExists(HoleyNodes(), HoleyNodes()[i].value.path)
    {
      OneExtent(StartOf(i), EndOf(i) - StartOf(i));
      OneLetter(97 + i as u8);
    }
  }

  lemma OneLetter(c: u8)
    requires c < 0x80 && c != SLASH
    ensures Utf8.Valid([c]) && IsClean([c]) && Parent([c]) == None
  {
    assert [c][1..] == [];
  }

  lemma HoleyOk()
    ensures FsOk(Holey())
  {
    hide AllocOk, NodesOk, TreeOk, HoleyNodes;
    Geometry200();
    HoleyAlloc();
    HoleyNodesOk();
  }

  /** On this healthy volume, cutting the large file by one block fails: its
      eight blocks are freed, the seven holes are filled first, and a seventh
      run has no extent to go in. The size field then exceeds the blocks. */
  lemma ShrinkCanFail(keep: seq<u8>, now: u64)
    requires |keep| == 7 * BLOCK_SIZE
    ensures FsOk(Holey()) && CanWrite(Holey(), 7)
    ensures Shrink(Holey(), 7, keep, now).result.Err? && !FsOk(Shrink(Holey(), 7, keep, now).fs)
  {
    hide FsOk, CanWrite, Shrink, EnsureBlocks;
    HoleyOk();
    Geometry200();
    var fs := Holey();
    var freed := ReleaseExtents(fs.used, fs.nodes[7].value.extents);
    forall b | DATA <= b < DATA + 14
      ensures b in freed <==> (b - DATA) % 2 == 1
    {
      ReleaseHas(fs.used, fs.nodes[7].value.extents, 1, b);
      OneExtent(DATA + 14, 8);
    }
    SevenHolesFail(freed, fs.geom, 7);
    ShrinkIff(fs, 7, keep, now);
  }

  // ---- a write and an extension that run out of space ------------------------------------

  /** One file holding every data block but the last, and one empty file. */
  function TightNode(i: nat): Option<Node> {
    if i == 0 then Some(Node([97], File, 0, 0, 0, 0, [Extent(DATA, TOTAL - 1 - DATA)]))
    else if i == 1 then Some(Node([98], File, 0, 0, 0, 0, []))
    else None
  }

  function TightNodes(): Nodes { seq(MAX_NODES, i requires 0 <= i < MAX_NODES => TightNode(i)) }

  predicate Taken(b: nat) { b < TOTAL - 1 }

  function TightUsed(): set<nat> { set b | 0 <= b < TOTAL && Taken(b) }

  function Tight(): Fs { Fs(Derive(TOTAL), 1, 0, TightUsed(), TightNodes(), [], 1, false, false) }

  lemma TightBlocks(i: nat)
    requires i < MAX_NODES
    ensures NoDup(BlocksOf(TightNodes(), i))
    ensures forall b :: b in BlocksOf(TightNodes(), i) <==> i == 0 && DATA <= b < TOTAL - 1
  {
    OneExtent(DATA, TOTAL - 1 - DATA);
    assert Blocks([]) == [];
  }

  lemma TightOk()
    ensures FsOk(Tight()) && CanWrite(Tight(), 1)
  {
    hide BlocksOf, NoDup;
    Geometry200();
    var nodes := TightNodes();
    forall i | 0 <= i < MAX_NODES
      ensures NoDup(BlocksOf(nodes, i))
      ensures forall b :: b in BlocksOf(nodes, i) <==> i == 0 && DATA <= b < TOTAL - 1
    {
      TightBlocks(i);
    }
    assert AllocOk(Derive(TOTAL), TightUsed(), nodes) by {
      forall b | DATA <= b < TOTAL
        ensures b in TightUsed() <==> Owned(nodes, b)
      {
        assert b in TightUsed() ==> b in BlocksOf(nodes, 0);
      }
    }
    TightNodesOk();
  }

  lemma TightNodesOk()
    ensures NodesOk(Derive(TOTAL), TightNodes()) && TreeOk(TightNodes())
  {
    Geometry200();
    forall i | 0 <= i < MAX_NODES && TightNodes()[i].Some?
      ensures NodeOk(Derive(TOTAL), TightNodes()[i].value)
      ensures IsClean(TightNodes()[i].value.path) && ParentExists(TightNodes(), TightNodes()[i].value.path)
    {
      OneExtent(DATA, TOTAL - 1 - DATA);
      OneLetter(97 + i as u8);
    }
  }

  lemma TightReach()
    ensures CanWrite(Tight(), 1) && Reach(Tight(), 1) == 1
  {
    hide FsOk, CanWrite;
    TightOk();
    Geometry200();
    var used := TightUsed();
    ScanIs(used, DATA, TOTAL, false, TOTAL - 1);
    ScanIs(used, TOTAL - 1, TOTAL, true, TOTAL);
    EmptyRuns(used, TOTAL, MAX_EXTENTS - 1);
  }

  /** On this healthy volume a two-block write to the empty file fails, keeps
      the last block, and does not mark the volume dirty. */
  lemma WriteCanKeepBlocks(input: seq<u8>, now: u64)
    requires |input| == 2 * BLOCK_SIZE
    ensures FsOk(Tight()) && CanWrite(Tight(), 1)
    ensures var m := WriteNode(Tight(), 1, 0, input, now);
      && m.result.Err? && m.fs != Tight() && !m.fs.dirty
      && m.fs.nodes[1].Some? && Allocated(m.fs.nodes[1].value.extents) == 1
  {
    hide FsOk, WriteNode, Reach, Allocated;
    TightOk();
    TightReach();
    Geometry200();
    WriteIff(Tight(), 1, 0, input, now);
    WriteSize(Tight(), 1, 0, input, now);
    assert TOTAL - 1 !in TightUsed();
  }

  /** And an extension by two blocks fails with the first one written. */
  lemma ExtendCanStop(now: u64)
    ensures FsOk(Tight()) && CanWrite(Tight(), 1)
    ensures var m := ZeroExtend(Tight(), 1, 0, 2 * BLOCK_SIZE, now);
      m.result.Err? && m.fs.nodes[1].Some? && m.fs.nodes[1].value.size == BLOCK_SIZE
  {
    hide FsOk, ZeroExtend, Reach;
    TightOk();
    TightReach();
    ExtendIff(Tight(), 1, 2 * BLOCK_SIZE, now);
  }

  // ---- a shrink torn by a crash ---------------------------------------------------------------

  /** One file of two blocks, the later one first. */
  const SWAPPED: Node := Node([97], File, 0, 2 * BLOCK_SIZE, 0, 0, [Extent(DATA + 1, 1), Extent(DATA, 1)])

  function SwappedNodes(): Nodes {
    seq(MAX_NODES, i requires 0 <= i < MAX_NODES => if i == 0 then Some(SWAPPED) else None)
  }

  predicate InFront(b: nat) { b < DATA + 2 }

  function SwappedUsed(): set<nat> { set b | 0 <= b < TOTAL && InFront(b) }

  function SwappedMeta(): Meta { Meta(1, 0, SwappedUsed(), SwappedNodes()) }

  /** Mounted, with the file open for writing. */
  function Swapped(): Fs {
    MountOf(Derive(TOTAL), SwappedMeta()).(
      handles := [Handle(1, 0, 0, Flags(true, true, false, false, false, false))], nextHandle := 2)
  }

  lemma SwappedBlocks()
    ensures Blocks(SWAPPED.extents) == [DATA + 1, DATA] && NoDup([DATA + 1, DATA]) && Allocated(SWAPPED.extents) == 2
  {
    var ext := SWAPPED.extents;
    assert BlocksIn(ext, 0) == [];
    assert BlocksIn(ext, 1) == Range(DATA + 1, 1) == [DATA + 1];
    assert Blocks(ext) == BlocksIn(ext, 2) == [DATA + 1] + Range(DATA, 1);
    var two: seq<nat> := [DATA + 1, DATA];
    assert NoDupIn(two, 0);
    assert NoDupIn(two, 1);
    assert NoDupIn(two, 2);
  }

  lemma SwappedOk()
    ensures Publishable(Derive(TOTAL), SwappedMeta()) && FsOk(Swapped())
  {
    Geometry200();
    SwappedBlocks();
    OneLetter(97);
    var nodes := SwappedNodes();
    forall i | 0 <= i < MAX_NODES
      ensures BlocksOf(nodes, i) == if i == 0 then [DATA + 1, DATA] else []
    {
    }
    assert AllocOk(Derive(TOTAL), SwappedUsed(), nodes) by {
      forall b | DATA <= b < TOTAL
        ensures b in SwappedUsed() <==> Owned(nodes, b)
      {
        assert b in BlocksOf(nodes, 0) <==> b == DATA || b == DATA + 1;
      }
    }
  }

  /** Freed and cut to 1000 bytes, the file gets its two blocks in order. */
  lemma SwappedKept()
    ensures Derive(TOTAL).dataStart == DATA && ShrinkFits(Swapped(), 0, 1000)
    ensures Blocks(KeptExtents(Swapped(), 0, 1000)) == [DATA, DATA + 1]
  {
    hide Grow;
    Geometry200();
    SwappedBlocks();
    var freed, g := ReleaseExtents(SwappedUsed(), SWAPPED.extents), Derive(TOTAL);
    forall b: nat
      ensures b in freed <==> b < DATA
    {
      ReleaseHas(SwappedUsed(), SWAPPED.extents, 2, b);
    }
    ScanIs(freed, DATA, TOTAL, false, DATA);
    ScanIs(freed, DATA, TOTAL, true, TOTAL);
    ScanIs(freed, DATA + 1, DATA + 2, true, DATA + 2);
    assert AllocRun(freed, g, 2) == Some((DATA, 2));
    GrowsOnce(freed, g);
    OneExtent(DATA, 2);
    assert Range(DATA, 2) == [DATA, DATA + 1];
  }

  lemma GrowsOnce(used: set<nat>, g: Geometry)
    requires g.dataStart <= g.totalBlocks && AllocRun(used, g, 2) == Some((DATA, 2))
    ensures EnsureBlocks(used, g, [], 2).extents == [Extent(DATA, 2)]
  {
    hide AllocRun;
    assert Allocated([]) == 0;
  }

  /** A disk with this volume published on it. */
  ghost function SwappedDisk(blank: Disk): (d: Disk)
    requires |blank| == TOTAL && Publishable(Derive(TOTAL), SwappedMeta())
    ensures |d| == TOTAL
  {
    var g, m := Derive(TOTAL), SwappedMeta();
    Apply(blank, PublishWrites(g, 0, ImageOf(g, m), EncodeSuper(SuperOf(g, m), g)))
  }

  lemma SwappedStands(blank: Disk)
    requires |blank| == TOTAL && Publishable(Derive(TOTAL), SwappedMeta()) && FsOk(Swapped())
    ensures InStep(SwappedDisk(blank), Swapped(), SwappedMeta())
    ensures forall b | DATA <= b < TOTAL :: SwappedDisk(blank)[b] == blank[b]
  {
    hide NodesOk, TreeOk, AllocOk, UsedFits, DecodeSuper, EncodeSuper, ImageOf, SlotWrites, Load, Apply, Stands, FsOk,
         SwappedNodes, SwappedUsed;
    var g, m := Derive(TOTAL), SwappedMeta();
    Geometry200();
    var image, super := ImageOf(g, m), EncodeSuper(SuperOf(g, m), g);
    SuperRoundTrip(SuperOf(g, m), g);
    FormatStands(blank, g, SuperOf(g, m), image, super);
    LoadPublished(SwappedDisk(blank), g, m);
    Resume(SwappedDisk(blank), Swapped(), m);
    forall b | DATA <= b < TOTAL
      ensures SwappedDisk(blank)[b] == blank[b]
    {
      PublishFrame(blank, g, image, super, b);
    }
  }

  lemma PublishFrame(disk: Disk, g: Geometry, image: seq<u8>, super: Block, b: nat)
    requires GeomOk(g) && |image| == g.SlotBytes() && g.dataStart <= b < |disk|
    ensures Apply(disk, PublishWrites(g, 0, image, super))[b] == disk[b]
  {
    DeriveBounds(g);
    var ws := PublishWrites(g, 0, image, super);
    ApplyFrame(disk, ws, |ws|, b);
  }

  lemma SwappedHarms(bytes: seq<u8>)
    requires |bytes| == 2 * BLOCK_SIZE && bytes[0] != bytes[BLOCK_SIZE]
    ensures !Harmless(bytes, [DATA + 1, DATA], [DATA, DATA + 1], 1000)
  {
    assert Moves([DATA + 1, DATA], [DATA, DATA + 1], 0, 1);
    assert !Alike(bytes, 1000, 0, 1, 0);
  }

  /** On this healthy volume a crash during a shrink by 24 bytes, before its
      commit, loses the second block of a committed file: the first one has been
      written over it. */
  lemma ShrinkCanTear(blank: Disk, now: u64) returns (s: State, k: nat)
    requires |blank| == TOTAL && blank[DATA][0] != blank[DATA + 1][0]
    ensures Sound(s) && Readable(s.disk, SWAPPED) && Settled(s, 0, SWAPPED, Content(s.disk, SWAPPED))
    ensures CanTake(s, CrashIn(Ftruncate(1, 1000, now), k))
    ensures var s' := Take(s, CrashIn(Ftruncate(1, 1000, now), k));
      && s'.saved == s.saved && s'.mount.Loaded? && s'.mount.fs.nodes[0] == Some(SWAPPED)
      && Readable(s'.disk, SWAPPED) && Content(s'.disk, SWAPPED) != Content(s.disk, SWAPPED)
  {
    hide FsOk, Publishable, ImageOf, EncodeSuper, DecodeSuper, Stands, Harmless, KeptExtents, SwappedNodes, SwappedUsed;
    var g, m := Derive(TOTAL), SwappedMeta();
    SwappedOk();
    Geometry200();
    var disk := SwappedDisk(blank);
    s := State(disk, Loaded(Swapped()), m);
    SwappedStands(blank);
    SwappedKept();
    SwappedBlocks();
    assert Readable(disk, SWAPPED);
    var op := Ftruncate(1, 1000, now);
    assert CanTake(s, Call(op));
    var bytes := Content(disk, SWAPPED);
    assert Through(Swapped(), 1, 0);
    ShrinkTornIff(s, 1, 1000, now, 0, SWAPPED, bytes);
    assert bytes[0] == disk[DATA + 1][0] && bytes[BLOCK_SIZE] == disk[DATA][0];
    SwappedHarms(bytes);
    k :| !ShownAt(s, op, k, 0, SWAPPED, bytes);
    TornShows(s, op, k, 0, SWAPPED, bytes);
  }

  // ---- a rename into its own subtree ---------------------------------------------------

  const A: Path := [97]
  const AB: Path := [97, 47, 98]
  const ABC: Path := [97, 47, 98, 47, 99]

  function NestedNodes(): Nodes {
    seq(MAX_NODES, i requires 0 <= i < MAX_NODES =>
      if i == 0 then Some(Node(A, Directory, 0, 0, 0, 0, []))
      else if i == 1 then Some(Node(AB, Directory, 0, 0, 0, 0, [])) else None)
  }

  lemma NestedPaths()
    ensures Parent(A) == None && Parent(AB) == Some(A) && Parent(ABC) == Some(AB)
    ensures Clean(A) == A && Clean(ABC) == ABC && Under(ABC, A)
  {
    assert AB[1] == SLASH && LastSlash(AB, 2) == Some(1) && AB[..1] == A;
    assert ABC[3] == SLASH && LastSlash(ABC, 4) == Some(3) && ABC[..3] == AB;
    CleanIsClean(A);
    CleanIsClean(AB);
    CleanIsClean(ABC);
  }

  /** Two nested directories, and the outer one renamed below the inner one:
      the call is let through and leaves both without a path to the root. */
  lemma RenameCanDetach(now: u64)
    ensures TreeOk(NestedNodes()) && CheckRename(NestedNodes(), A, ABC) == Allowed(0)
    ensures !TreeOk(RenamedNodes(NestedNodes(), 0, A, ABC, now))
  {
    hide RenamedNodes, Clean, Parent, FindPath;
    var nodes := NestedNodes();
    NestedPaths();
    assert FindPath(nodes, A, 0) == Some(0) && FindPath(nodes, AB, 0) == Some(1) && FindPath(nodes, ABC, 0) == None;
    assert TreeOk(nodes);
    assert MovesFit(nodes, A, ABC) by {
      assert forall i | 1 < i < MAX_NODES :: nodes[i].None?;
    }
    RenameTreeIff(nodes, 0, A, ABC, now);
  }
}
