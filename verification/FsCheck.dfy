/** The checker and the degraded mount: what `fsck` counts, that its verdict is
    what mounting will do on any disk whatever, and what a degraded mount keeps. */
module FsCheck {
  import opened Bytes
  import opened FsFormat
  import opened FsNode
  import opened FsAlloc
  import opened FsOps
  import opened FsLoad
  import FsMount
  import Bitmap

  datatype SlotScan = SlotScan(
    nodesTotal: nat, nodesOk: nat, nodesCorrupt: nat, duplicatePaths: nat, extentErrors: nat, bitmapErrors: nat)
  {
    predicate IsClean() { nodesCorrupt == 0 && extentErrors == 0 && duplicatePaths == 0 }
  }

  // ---- what is counted ----------------------------------------------------------------

  function CorruptBelow(image: seq<u8>, g: Geometry, n: nat): nat
    requires ImageOk(g, image) && n <= MAX_NODES
    decreases n, image
  {
    if n == 0 then 0 else CorruptBelow(image, g, n - 1) + if ParseAt(image, g, n - 1).Corrupt? then 1 else 0
  }

  function GoodBelow(image: seq<u8>, g: Geometry, n: nat): nat
    requires ImageOk(g, image) && n <= MAX_NODES
    decreases n, image
  {
    if n == 0 then 0 else GoodBelow(image, g, n - 1) + if ParseAt(image, g, n - 1).Good? then 1 else 0
  }

  /** Two kinds of clash between nodes. */
  predicate Clash(overlap: bool, a: Option<Node>, b: Option<Node>) {
    a.Some? && b.Some? && if overlap then Overlap(a.value, b.value) else a.value.path == b.value.path
  }

  function ClashesWith(overlap: bool, nodes: Nodes, i: nat, n: nat): nat
    requires n <= i < MAX_NODES
    decreases n, nodes
  {
    if n == 0 then 0
    else ClashesWith(overlap, nodes, i, n - 1) + if Clash(overlap, nodes[i], nodes[n - 1]) then 1 else 0
  }

  function Clashes(overlap: bool, nodes: Nodes, n: nat): nat
    requires n <= MAX_NODES
    decreases n, nodes
  {
    if n == 0 then 0 else Clashes(overlap, nodes, n - 1) + ClashesWith(overlap, nodes, n - 1, n - 1)
  }

  /** The blocks the first `n` nodes lay claim to. */
  function Claimed(nodes: Nodes, n: nat): set<nat>
    requires n <= MAX_NODES
    decreases n, nodes
  {
    if n == 0 then {}
    else if nodes[n - 1].None? then Claimed(nodes, n - 1)
    else MarkExtents(Claimed(nodes, n - 1), nodes[n - 1].value.extents, |nodes[n - 1].value.extents|)
  }

  function MarkExtents(used: set<nat>, ext: seq<Extent>, k: nat): set<nat>
    requires k <= |ext|
  {
    if k == 0 then used else MarkUsed(MarkExtents(used, ext, k - 1), ext[k - 1].start, ext[k - 1].len)
  }

  /** Claimed blocks in `[lo, hi)` whose bit is clear. */
  function Unmarked(claimed: set<nat>, used: set<nat>, lo: nat, hi: nat): nat
    requires lo <= hi
    decreases hi - lo
  {
    if hi == lo then 0
    else Unmarked(claimed, used, lo, hi - 1) + if hi - 1 in claimed && hi - 1 !in used then 1 else 0
  }

  function Scan(image: seq<u8>, g: Geometry): SlotScan
    requires ImageOk(g, image) && g.dataStart <= g.totalBlocks
  {
    var good, bad := GoodBelow(image, g, MAX_NODES), CorruptBelow(image, g, MAX_NODES);
    var nodes := DecodedNodes(image, g);
    SlotScan(good + bad, good, bad, Clashes(false, nodes, MAX_NODES), Clashes(true, nodes, MAX_NODES),
      Unmarked(Claimed(nodes, MAX_NODES), Bitmap.Unpack(image[..g.BitmapLen()]), g.dataStart, g.totalBlocks))
  }

  // ---- the scanning loops -----------------------------------------------------------------

  method ScanSlot(image: seq<u8>, g: Geometry) returns (scan: SlotScan)
    requires ImageOk(g, image) && g.dataStart <= g.totalBlocks
    ensures scan == Scan(image, g)
  {
    hide ParseAt, Clashes, Claimed, Unmarked, GoodBelow, CorruptBelow;
    var total, ok, corrupt, nodes := DecodeTable(image, g);
    var duplicates, overlaps := CountClashes(nodes);
    var expected := ClaimBlocks(nodes);
    var errors := CountUnmarked(expected, Bitmap.Unpack(image[..g.BitmapLen()]), g);
    scan := SlotScan(total, ok, corrupt, duplicates, overlaps, errors);
  }

  method DecodeTable(image: seq<u8>, g: Geometry) returns (total: nat, ok: nat, corrupt: nat, nodes: Nodes)
    requires ImageOk(g, image)
    ensures ok == GoodBelow(image, g, MAX_NODES) && corrupt == CorruptBelow(image, g, MAX_NODES)
    ensures total == ok + corrupt && nodes == DecodedNodes(image, g)
  {
    hide ParseAt;
    total, ok, corrupt := 0, 0, 0;
    var good: seq<Option<Node>> := [];
    for i := 0 to MAX_NODES
      invariant |good| == i && forall j | 0 <= j < i :: good[j] == NodeAt(image, g, j)
      invariant total == ok + corrupt && ok == GoodBelow(image, g, i) && corrupt == CorruptBelow(image, g, i)
    {
      match ParseAt(image, g, i) {
        case Unused => good := good + [None];
        case Corrupt =>
          total, corrupt := total + 1, corrupt + 1;
          good := good + [None];
        case Good(node) =>
          total, ok := total + 1, ok + 1;
          good := good + [Some(node)];
      }
    }
    nodes := good;
    assert nodes == DecodedNodes(image, g);
  }

  method CountUnmarked(expected: set<nat>, used: set<nat>, g: Geometry) returns (errors: nat)
    requires g.dataStart <= g.totalBlocks
    ensures errors == Unmarked(expected, used, g.dataStart, g.totalBlocks)
  {
    errors := 0;
    for block := g.dataStart to g.totalBlocks
      invariant errors == Unmarked(expected, used, g.dataStart, block)
    {
      if block in expected && block !in used {
        errors := errors + 1;
      }
    }
  }

  method CountClashes(nodes: Nodes) returns (duplicates: nat, overlaps: nat)
    ensures duplicates == Clashes(false, nodes, MAX_NODES) && overlaps == Clashes(true, nodes, MAX_NODES)
  {
    duplicates, overlaps := 0, 0;
    for i := 0 to MAX_NODES
      invariant duplicates == Clashes(false, nodes, i) && overlaps == Clashes(true, nodes, i)
    {
      for j := 0 to i
        invariant duplicates == Clashes(false, nodes, i) + ClashesWith(false, nodes, i, j)
        invariant overlaps == Clashes(true, nodes, i) + ClashesWith(true, nodes, i, j)
      {
        hide Overlap;
        if nodes[i].Some? && nodes[j].Some? {
          if nodes[j].value.path == nodes[i].value.path {
            duplicates := duplicates + 1;
          }
          if Overlap(nodes[i].value, nodes[j].value) {
            overlaps := overlaps + 1;
          }
        }
      }
    }
  }

  method ClaimBlocks(nodes: Nodes) returns (claimed: set<nat>)
    ensures claimed == Claimed(nodes, MAX_NODES)
  {
    claimed := {};
    for i := 0 to MAX_NODES
      invariant claimed == Claimed(nodes, i)
    {
      if nodes[i].Some? {
        var ext := nodes[i].value.extents;
        for k := 0 to |ext|
          invariant claimed == MarkExtents(Claimed(nodes, i), ext, k)
        {
          claimed := MarkUsed(claimed, ext[k].start, ext[k].len);
        }
      }
    }
  }

  // ---- counts that are zero -----------------------------------------------------------------

  lemma {:induction false} NoneCorruptBelow(image: seq<u8>, g: Geometry, n: nat)
    requires ImageOk(g, image) && n <= MAX_NODES
    ensures CorruptBelow(image, g, n) == 0 <==> forall i | 0 <= i < n :: !ParseAt(image, g, i).Corrupt?
    decreases n
  {
    hide ParseAt;
    if n > 0 {
      NoneCorruptBelow(image, g, n - 1);
    }
  }

  lemma {:induction false} NoClashesWith(overlap: bool, nodes: Nodes, i: nat, n: nat)
    requires n <= i < MAX_NODES
    ensures ClashesWith(overlap, nodes, i, n) == 0 <==> forall j | 0 <= j < n :: !Clash(overlap, nodes[i], nodes[j])
    decreases n
  {
    hide Clash;
    if n > 0 {
      NoClashesWith(overlap, nodes, i, n - 1);
    }
  }

  lemma {:induction false} NoClashes(overlap: bool, nodes: Nodes, n: nat)
    requires n <= MAX_NODES
    ensures Clashes(overlap, nodes, n) == 0 <==> forall i, j | 0 <= j < i < n :: !Clash(overlap, nodes[i], nodes[j])
    decreases n
  {
    hide Clash;
    if n > 0 {
      NoClashes(overlap, nodes, n - 1);
      NoClashesWith(overlap, nodes, n - 1, n - 1);
    }
  }

  /** A slot scans clean exactly when strict assembly accepts it. */
  lemma CleanIffStrict(image: seq<u8>, g: Geometry, sb: SuperBlock)
    requires ImageOk(g, image) && g.dataStart <= g.totalBlocks
    ensures Scan(image, g).IsClean() <==> FromSlot(g, sb, image).Some?
  {
    hide ParseAt, DecodedNodes, Overlap;
    var nodes := DecodedNodes(image, g);
    NoneCorruptBelow(image, g, MAX_NODES);
    NoClashes(false, nodes, MAX_NODES);
    NoClashes(true, nodes, MAX_NODES);
    assert Consistent(nodes) <==>
      && (forall i, j | 0 <= j < i < MAX_NODES :: !Clash(false, nodes[i], nodes[j]))
      && (forall i, j | 0 <= j < i < MAX_NODES :: !Clash(true, nodes[i], nodes[j]));
  }

  // ---- fsck against load ------------------------------------------------------------------

  datatype Verdict = Clean | Degraded | Unrecoverable

  datatype Report = Report(
    primaryOk: bool, backupOk: bool, slotCrcOk: bool, generation: nat, scan: SlotScan, verdict: Verdict)

  const NO_SCAN: SlotScan := SlotScan(0, 0, 0, 0, 0, 0)

  /** Mounting a partition of any size. */
  function LoadPartition(disk: Disk): MountResult
    requires |disk| < 0x1_0000_0000_0000_0000
  {
    var g := Derive(|disk|);
    if |disk| <= g.dataStart then NotMountable else Load(disk, g)
  }

  /** The verdict on a partition, as its two superblocks and their slots decide:
      clean if one of them is intact, else degraded if one of them has its slot,
      and the generation is that of the newest such one. */
  ghost predicate Judged(disk: Disk, verdict: Verdict, generation: nat)
    requires |disk| < 0x1_0000_0000_0000_0000
  {
    var g := Derive(|disk|);
    if |disk| <= g.dataStart then verdict == Unrecoverable
    else
      && (verdict == Clean <==> FsMount.Intact(disk, g, 0) || FsMount.Intact(disk, g, 1))
      && (verdict == Unrecoverable <==> !FsMount.Backed(disk, g, 0) && !FsMount.Backed(disk, g, 1))
      && (verdict != Unrecoverable ==>
            exists o: nat :: FsMount.Backed(disk, g, o) && FsMount.Newest(disk, g, o, verdict == Clean)
              && (verdict == Clean ==> FsMount.Intact(disk, g, o))
              && generation == FsMount.SuperAt(disk, g, o).generation)
  }

  predicate VerdictOf(mount: MountResult, verdict: Verdict, generation: nat) {
    && (verdict == Clean <==> mount.Loaded? && !mount.fs.readOnly)
    && (verdict == Degraded <==> mount.Loaded? && mount.fs.readOnly)
    && (verdict == Unrecoverable <==> mount.NotMountable?)
    && (mount.Loaded? ==> generation == mount.fs.generation)
  }

  lemma JudgedIs(disk: Disk)
    requires |disk| < 0x1_0000_0000_0000_0000
    ensures forall v: Verdict, n: nat | VerdictOf(LoadPartition(disk), v, n) :: Judged(disk, v, n)
  {
    hide LoadPartition, Judged;
    forall v: Verdict, n: nat | VerdictOf(LoadPartition(disk), v, n)
      ensures Judged(disk, v, n)
    {
      JudgedAs(disk, v, n);
    }
  }

  lemma JudgedAs(disk: Disk, v: Verdict, n: nat)
    requires |disk| < 0x1_0000_0000_0000_0000 && VerdictOf(LoadPartition(disk), v, n)
    ensures Judged(disk, v, n)
  {
    hide FsMount.Backed, FsMount.Newest, Load, FromSlot, FromSlotDegraded;
    var g := Derive(|disk|);
    if g.dataStart < |disk| {
      FsMount.LoadIff(disk, g);
      var r := Load(disk, g);
      if v == Clean {
        var o: nat :| FsMount.Intact(disk, g, o) && FsMount.Newest(disk, g, o, true)
          && FromSlot(g, FsMount.SuperAt(disk, g, o), FsMount.ImageAt(disk, g, o)) == Some(r.fs);
        StrictShape(g, FsMount.SuperAt(disk, g, o), FsMount.ImageAt(disk, g, o));
      } else if v == Degraded {
        var o: nat :| FsMount.Backed(disk, g, o) && FsMount.Newest(disk, g, o, false)
          && FromSlotDegraded(g, FsMount.SuperAt(disk, g, o), FsMount.ImageAt(disk, g, o)) == r.fs;
        DegradedShape(g, FsMount.SuperAt(disk, g, o), FsMount.ImageAt(disk, g, o));
      }
    }
  }

  /** Whatever the partition holds, the verdict and the generation reported are
      those of the mount it would get. */
  method Fsck(disk: Disk) returns (report: Report)
    requires |disk| < 0x1_0000_0000_0000_0000
    ensures VerdictOf(LoadPartition(disk), report.verdict, report.generation)
    ensures Judged(disk, report.verdict, report.generation)
  {
    JudgedIs(disk);
    hide Judged, DecodeSuper, ReadSlot, Ranked, Candidates, FromSlot, FromSlotDegraded, Scan;
    var g := Derive(|disk|);
    if |disk| <= g.dataStart {
      return Report(false, false, false, 0, NO_SCAN, Unrecoverable);
    }
    var primary, backup := DecodeSuper(disk[0], g).Some?, DecodeSuper(disk[1], g).Some?;
    var valid := Candidates(disk, g);
    if valid == [] {
      return Report(primary, backup, false, 0, NO_SCAN, Unrecoverable);
    }
    var k := 0;
    while k < |valid|
      invariant 0 <= k <= |valid| && FirstStrict(g, valid, 0) == FirstStrict(g, valid, k)
    {
      var scan := ScanSlot(valid[k].image, g);
      CleanIffStrict(valid[k].image, g, valid[k].super);
      if scan.IsClean() {
        StrictShape(g, valid[k].super, valid[k].image);
        return Report(primary, backup, true, valid[k].super.generation, scan, Clean);
      }
      k := k + 1;
    }
    var scan := ScanSlot(valid[0].image, g);
    DegradedShape(g, valid[0].super, valid[0].image);
    return Report(primary, backup, true, valid[0].super.generation, scan, Degraded);
  }

  lemma StrictShape(g: Geometry, sb: SuperBlock, image: seq<u8>)
    requires ImageOk(g, image) && FromSlot(g, sb, image).Some?
    ensures var fs := FromSlot(g, sb, image).value; fs.generation == sb.generation && !fs.readOnly
  {
  }

  lemma DegradedShape(g: Geometry, sb: SuperBlock, image: seq<u8>)
    requires ImageOk(g, image)
    ensures var fs := FromSlotDegraded(g, sb, image);
      fs.generation == sb.generation && fs.readOnly && !fs.dirty && fs.handles == []
  {
  }

  // ---- the degraded mount --------------------------------------------------------------------

  /** The first `n` slots of `kept` are settled: conflict-free, and whatever was
      dropped conflicts with a kept node before it. */
  ghost predicate Settled(nodes: Nodes, kept: Nodes, n: nat) {
    && (forall i | 0 <= i < MAX_NODES :: kept[i] == nodes[i] || (i < n && kept[i] == None))
    && (forall i, j | 0 <= j < i < n && i < MAX_NODES && kept[i].Some? && kept[j].Some? ::
          !Conflict(kept[i].value, kept[j].value))
    && (forall i | 0 <= i < n && i < MAX_NODES && kept[i] != nodes[i] ::
          nodes[i].Some? && exists j :: 0 <= j < i && kept[j].Some? && Conflict(nodes[i].value, kept[j].value))
  }

  lemma {:induction false} DropSettles(nodes: Nodes, n: nat)
    requires n <= MAX_NODES
    ensures Settled(nodes, DropConflicts(nodes, n), n)
    decreases n
  {
    hide Conflict;
    if n > 0 {
      DropSettles(nodes, n - 1);
      SettleNext(nodes, DropConflicts(nodes, n - 1), n - 1);
    }
  }

  lemma SettleNext(nodes: Nodes, kept: Nodes, n: nat)
    requires n < MAX_NODES && Settled(nodes, kept, n)
    ensures var drop := kept[n].Some?
      && exists j :: 0 <= j < n && kept[j].Some? && Conflict(kept[n].value, kept[j].value);
      Settled(nodes, if drop then kept[n := None] else kept, n + 1)
  {
    hide Conflict;
    if kept[n].Some? && exists j :: 0 <= j < n && kept[j].Some? && Conflict(kept[n].value, kept[j].value) {
      var next: Nodes := kept[n := None];
      forall i | 0 <= i < n + 1 && next[i] != nodes[i]
        ensures nodes[i].Some? && exists j :: 0 <= j < i && next[j].Some? && Conflict(nodes[i].value, next[j].value)
      {
        if i < n {
          var j :| 0 <= j < i && kept[j].Some? && Conflict(nodes[i].value, kept[j].value);
          assert next[j] == kept[j];
        } else {
          var j :| 0 <= j < n && kept[j].Some? && Conflict(kept[n].value, kept[j].value);
          assert next[j] == kept[j];
        }
      }
    }
  }

  /** A degraded mount keeps a consistent set of nodes; every slot it leaves out
      was unused, was corrupt, or clashes with a kept node of lower index. */
  lemma DegradedKeeps(g: Geometry, sb: SuperBlock, image: seq<u8>)
    requires ImageOk(g, image)
    ensures var kept := FromSlotDegraded(g, sb, image).nodes;
      && Consistent(kept)
      && forall i | 0 <= i < MAX_NODES ::
           match ParseAt(image, g, i)
           case Unused => kept[i] == None
           case Corrupt => kept[i] == None
           case Good(node) => || kept[i] == Some(node)
                              || (kept[i] == None &&
                                  exists j :: 0 <= j < i && kept[j].Some? && Conflict(node, kept[j].value))
  {
    hide ParseAt, Conflict, DropConflicts;
    DropSettles(DecodedNodes(image, g), MAX_NODES);
  }

  /** Nothing is dropped from an image that strict assembly accepts. */
  lemma NothingDropped(g: Geometry, sb: SuperBlock, image: seq<u8>)
    requires ImageOk(g, image) && FromSlot(g, sb, image).Some?
    ensures FromSlotDegraded(g, sb, image).nodes == FromSlot(g, sb, image).value.nodes
  {
    hide ParseAt, Conflict, DropConflicts;
    var nodes := DecodedNodes(image, g);
    DropSettles(nodes, MAX_NODES);
    var kept := DropConflicts(nodes, MAX_NODES);
    forall i | 0 <= i < MAX_NODES
      ensures kept[i] == nodes[i]
    {
    }
  }

  // ---- calls on a read-only mount ----------------------------------------------------------------

  /** A read-only mount with nothing to commit. */
  ghost predicate ReadOnlyMount(fs: Fs, disk: Disk) { Mounted(fs, disk) && fs.readOnly && !fs.dirty }

  /** No call on it writes a block or changes a node, and it stays read-only. */
  lemma ReadOnlyStep(fs: Fs, disk: Disk, op: Op)
    requires ReadOnlyMount(fs, disk)
    ensures CanFinish(disk, Mutate(fs, disk, op))
    ensures var e := Exec(fs, disk, op);
      e.writes == [] && e.fs.nodes == fs.nodes && e.fs.used == fs.used && ReadOnlyMount(e.fs, disk)
  {
    hide NodesOk, UsedFits, GeomOk, ReadBytes, AsI64;
    var m := Mutate(fs, disk, op);
    ReadOnlyMutate(fs, disk, op);
    assert Expand(disk, m.data, 0) == [];
  }

  lemma ReadOnlyMutate(fs: Fs, disk: Disk, op: Op)
    requires ReadOnlyMount(fs, disk)
    ensures var m := Mutate(fs, disk, op);
      m.data == [] && m.fs == fs.(handles := m.fs.handles, nextHandle := m.fs.nextHandle) && HandlesOk(m.fs)
  {
    hide NodesOk, UsedFits, GeomOk, ReadBytes, AsI64;
    match op {
      case WriteTo(handle, data, now) =>
        var k := FindHandle(fs.handles, handle, 0);
        if k.Some? && fs.handles[k.value].flags.write {
          CanWriteOn(fs, disk, fs.handles[k.value].node);
        }
      case _ =>
    }
  }

  lemma CanWriteOn(fs: Fs, disk: Disk, i: nat)
    requires Mounted(fs, disk) && i < MAX_NODES && fs.nodes[i].Some?
    ensures CanWrite(fs, i)
  {
    assert NodeOk(fs.geom, fs.nodes[i].value);
  }

  /** Every block write issued by a list of calls, in order. */
  ghost function CallWrites(fs: Fs, disk: Disk, ops: seq<Op>): seq<Write>
    requires ReadOnlyMount(fs, disk)
    decreases |ops|
  {
    hide Mounted, Exec;
    if ops == [] then []
    else
      ReadOnlyStep(fs, disk, ops[0]);
      var e := Exec(fs, disk, ops[0]);
      e.writes + CallWrites(e.fs, disk, ops[1..])
  }

  lemma {:induction false} NoWrites(fs: Fs, disk: Disk, ops: seq<Op>)
    requires ReadOnlyMount(fs, disk)
    ensures CallWrites(fs, disk, ops) == []
    decreases |ops|
  {
    hide Mounted, Exec;
    if ops != [] {
      ReadOnlyStep(fs, disk, ops[0]);
      NoWrites(Exec(fs, disk, ops[0]).fs, disk, ops[1..]);
    }
  }

  lemma DecodedOk(g: Geometry, image: seq<u8>, i: nat)
    requires ImageOk(g, image) && i < MAX_NODES && NodeAt(image, g, i).Some?
    ensures NodeOk(g, NodeAt(image, g, i).value)
  {
    DecodeSound(EntryAt(image, g, i), g);
  }

  /** From any image at all, the degraded mount is usable, and no run of calls
      on it ever writes a block. */
  lemma DegradedNeverWrites(g: Geometry, sb: SuperBlock, image: seq<u8>, disk: Disk, ops: seq<Op>)
    requires GeomOk(g) && |disk| == g.totalBlocks && ImageOk(g, image)
    ensures ReadOnlyMount(FromSlotDegraded(g, sb, image), disk)
    ensures CallWrites(FromSlotDegraded(g, sb, image), disk, ops) == []
  {
    hide NodeOk, DropConflicts, NodeAt, CallWrites, Bitmap.BitGet;
    var fs := FromSlotDegraded(g, sb, image);
    DropSettles(DecodedNodes(image, g), MAX_NODES);
    forall i | 0 <= i < MAX_NODES && fs.nodes[i].Some?
      ensures NodeOk(g, fs.nodes[i].value)
    {
      DecodedOk(g, image, i);
    }
    NoWrites(fs, disk, ops);
  }
}
