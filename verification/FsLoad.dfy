/** Mounting: reading superblocks and slots, strict assembly, recovery to the
    newest consistent generation, and the degraded read-only fallback. */
module FsLoad {
  import opened Bytes
  import opened FsFormat
  import opened FsNode
  import opened FsOps
  import Bitmap
  import Crc

  function ReadSlot(disk: Disk, g: Geometry, slot: nat): (s: seq<u8>)
    requires g.SlotStart(slot) + g.slotBlocks <= |disk|
    ensures |s| == g.SlotBytes()
  {
    seq(g.SlotBytes(), p requires 0 <= p < g.SlotBytes() =>
      disk[g.SlotStart(slot) + p / BLOCK_SIZE][p % BLOCK_SIZE])
  }

  // ---- assembling a slot image --------------------------------------------------------

  ghost predicate ImageOk(g: Geometry, image: seq<u8>) {
    |image| == g.BitmapLen() + MAX_NODES * NODE_SIZE
  }

  function NodeAt(image: seq<u8>, g: Geometry, i: nat): Option<Node>
    requires ImageOk(g, image) && i < MAX_NODES
  {
    var p := ParseAt(image, g, i);
    if p.Good? then Some(p.node) else None
  }

  /** The decodable nodes of an image, slot by slot. */
  function DecodedNodes(image: seq<u8>, g: Geometry): Nodes
    requires ImageOk(g, image)
  {
    seq(MAX_NODES, i requires 0 <= i < MAX_NODES => NodeAt(image, g, i))
  }

  predicate Overlap(a: Node, b: Node) {
    exists k, l :: 0 <= k < |a.extents| && 0 <= l < |b.extents|
      && a.extents[k].start < b.extents[l].start + b.extents[l].len
      && b.extents[l].start < a.extents[k].start + a.extents[k].len
  }

  predicate Conflict(a: Node, b: Node) { a.path == b.path || Overlap(a, b) }

  /** `verify_consistency`: no two nodes share a path or a block. */
  predicate Consistent(nodes: Nodes) {
    forall i, j | 0 <= j < i < MAX_NODES && nodes[i].Some? && nodes[j].Some? ::
      !Conflict(nodes[i].value, nodes[j].value)
  }

  predicate NoneCorrupt(image: seq<u8>, g: Geometry)
    requires ImageOk(g, image)
  {
    forall i | 0 <= i < MAX_NODES :: !ParseAt(image, g, i).Corrupt?
  }

  function Assemble(g: Geometry, sb: SuperBlock, image: seq<u8>, nodes: Nodes, readOnly: bool): Fs
    requires ImageOk(g, image)
  {
    Fs(g, sb.generation, sb.activeSlot, Bitmap.Unpack(image[..g.BitmapLen()]), nodes, [], 1, false, readOnly)
  }

  function FromSlot(g: Geometry, sb: SuperBlock, image: seq<u8>): Option<Fs>
    requires ImageOk(g, image)
  {
    if NoneCorrupt(image, g) && Consistent(DecodedNodes(image, g))
    then Some(Assemble(g, sb, image, DecodedNodes(image, g), false))
    else None
  }

  /** The second pass of the degraded mount, up to slot `n`: a node that
      conflicts with one kept before it is dropped. */
  function DropConflicts(nodes: Nodes, n: nat): Nodes
    requires n <= MAX_NODES
    decreases n, nodes
  {
    if n == 0 then nodes
    else
      var kept := DropConflicts(nodes, n - 1);
      if kept[n - 1].Some? && exists j :: 0 <= j < n - 1 && kept[j].Some? && Conflict(kept[n - 1].value, kept[j].value)
      then kept[n - 1 := None]
      else kept
  }

  function FromSlotDegraded(g: Geometry, sb: SuperBlock, image: seq<u8>): Fs
    requires ImageOk(g, image)
  {
    Assemble(g, sb, image, DropConflicts(DecodedNodes(image, g), MAX_NODES), true)
  }

  // ---- choosing a generation -----------------------------------------------------------

  datatype Candidate = Candidate(super: SuperBlock, image: seq<u8>)

  function ReadCandidate(disk: Disk, g: Geometry, lba: nat): (c: Option<Candidate>)
    requires GeomOk(g) && |disk| == g.totalBlocks && lba < 2
    ensures c.Some? ==> |c.value.image| == g.SlotBytes()
  {
    DeriveBounds(g);
    match DecodeSuper(disk[lba], g)
    case None => None
    case Some(sb) =>
      var image := ReadSlot(disk, g, sb.activeSlot);
      if Crc.Crc32(image) == sb.slotCrc then Some(Candidate(sb, image)) else None
  }

  /** Candidates whose slot checksum matches, newest generation first; equal
      generations keep the primary first. */
  function Ranked(a: Option<Candidate>, b: Option<Candidate>): (s: seq<Candidate>)
    ensures forall i | 0 <= i < |s| :: a == Some(s[i]) || b == Some(s[i])
  {
    if a.None? then (if b.None? then [] else [b.value])
    else if b.None? then [a.value]
    else if b.value.super.generation > a.value.super.generation then [b.value, a.value]
    else [a.value, b.value]
  }

  function Candidates(disk: Disk, g: Geometry): (s: seq<Candidate>)
    requires GeomOk(g) && |disk| == g.totalBlocks
    ensures forall i | 0 <= i < |s| :: ImageOk(g, s[i].image)
  {
    Ranked(ReadCandidate(disk, g, 0), ReadCandidate(disk, g, 1))
  }

  datatype MountResult = Loaded(fs: Fs) | NotMountable

  function FirstStrict(g: Geometry, cs: seq<Candidate>, k: nat): Option<Fs>
    requires k <= |cs| && forall i | 0 <= i < |cs| :: ImageOk(g, cs[i].image)
    decreases |cs| - k
  {
    if k == |cs| then None
    else
      var fs := FromSlot(g, cs[k].super, cs[k].image);
      if fs.Some? then fs else FirstStrict(g, cs, k + 1)
  }

  function Load(disk: Disk, g: Geometry): MountResult
    requires GeomOk(g) && |disk| == g.totalBlocks
  {
    var cs := Candidates(disk, g);
    var strict := FirstStrict(g, cs, 0);
    if strict.Some? then Loaded(strict.value)
    else if cs == [] then NotMountable
    else Loaded(FromSlotDegraded(g, cs[0].super, cs[0].image))
  }
}
