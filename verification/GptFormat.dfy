/** The GUID partition table as bytes: entries, header, and what reading a disk
    back gives (section 5.3 of the UEFI Specification). */
module GptFormat {
  import opened Bytes
  import opened Blocks
  import opened FsFormat
  import Crc

  const SIGNATURE: seq<u8> := [69, 70, 73, 32, 80, 65, 82, 84]
  const REVISION: nat := 0x1_0000
  const HEADER_SIZE: nat := 92
  const ENTRY_SIZE: nat := 128
  const ENTRY_COUNT: nat := 128
  const MAX_PARTITIONS: nat := 32
  const NAME_UNITS: nat := 36

  type Guid = g: seq<u8> | |g| == 16 witness Zeros(16)

  datatype Error =
    | UnsupportedBlockSize | DiskTooSmall | InvalidSignature | InvalidHeader | InvalidHeaderCrc
    | InvalidTableCrc | TooManyEntries | InvalidPartition | Io

  datatype Result<+T> = Ok(value: T) | Err(error: Error)

  /** A partition as asked for; the name is its UTF-16 code units. */
  datatype Spec = Spec(typeGuid: Guid, uniqueGuid: Guid, first: u64, last: u64, attributes: u64, name: seq<u16>)

  /** A partition as read. */
  datatype Partition = Partition(
    index: nat, typeGuid: Guid, uniqueGuid: Guid, first: nat, last: nat, attributes: nat, name: seq<u8>)

  datatype Table = Table(diskGuid: Guid, firstUsable: nat, lastUsable: nat, partitions: seq<Partition>)

  datatype Header = Header(
    current: nat, backup: nat, firstUsable: nat, lastUsable: nat, diskGuid: Guid,
    entriesLba: nat, entryCount: nat, entrySize: nat, entriesCrc: nat)

  predicate ZeroGuid(g: seq<u8>) { forall i | 0 <= i < |g| :: g[i] == 0 }

  // ---- names -----------------------------------------------------------------------

  function Units(s: seq<u16>): (r: seq<u8>)
    ensures |r| == 2 * |s|
  {
    if s == [] then [] else Units(s[..|s| - 1]) + LE(s[|s| - 1], 2)
  }

  /** The units of a name that have room in an entry. */
  function Clip(name: seq<u16>): (r: seq<u16>)
    ensures |r| <= NAME_UNITS
  {
    if |name| <= NAME_UNITS then name else name[..NAME_UNITS]
  }

  function NameBytes(name: seq<u16>): (r: seq<u8>)
    ensures |r| == 72
  {
    Units(Clip(name)) + Zeros(72 - 2 * |Clip(name)|)
  }

  function Code(data: seq<u8>, k: nat): nat
    requires 2 * k + 2 <= |data|
  {
    FromLE(data[2 * k..2 * k + 2])
  }

  function Shown(code: nat): u8 { if code <= 0x7f then code as u8 else 63 }

  /** The name an entry shows, from unit `k` on. */
  function NameFrom(data: seq<u8>, k: nat): seq<u8>
    requires |data| == 72 && k <= NAME_UNITS
    decreases NAME_UNITS - k
  {
    if k == NAME_UNITS || Code(data, k) == 0 then [] else [Shown(Code(data, k))] + NameFrom(data, k + 1)
  }

  /** What a list of units reads back as: up to the first NUL, with a question
      mark for every unit that is not ASCII. */
  function Displayed(name: seq<u16>): seq<u8> {
    if name == [] || name[0] == 0 then [] else [Shown(name[0])] + Displayed(name[1..])
  }

  lemma {:induction false} UnitsAt(s: seq<u16>, k: nat)
    requires k < |s|
    ensures Units(s)[2 * k..2 * k + 2] == LE(s[k], 2)
  {
    var n := |s| - 1;
    if k < n {
      UnitsAt(s[..n], k);
      assert Units(s)[2 * k..2 * k + 2] == Units(s[..n])[2 * k..2 * k + 2];
    }
  }

  lemma CodeAt(name: seq<u16>, k: nat)
    requires k < NAME_UNITS
    ensures Code(NameBytes(name), k) == if k < |Clip(name)| then Clip(name)[k] else 0
  {
    hide LE, FromLE, Clip;
    var s, data := Clip(name), NameBytes(name);
    if k < |s| {
      UnitsAt(s, k);
      assert data[2 * k..2 * k + 2] == Units(s)[2 * k..2 * k + 2];
      LE16(s[k]);
    } else {
      assert data[2 * k..2 * k + 2] == [0, 0];
      TwoZeros();
    }
  }

  lemma TwoZeros()
    ensures FromLE([0, 0]) == 0
  {
    assert [0 as u8, 0][1..] == [0];
  }

  lemma {:induction false} NameFromIs(name: seq<u16>, k: nat)
    requires k <= |Clip(name)|
    ensures NameFrom(NameBytes(name), k) == Displayed(Clip(name)[k..])
    decreases NAME_UNITS - k
  {
    hide NameBytes, Code, Clip;
    var s := Clip(name);
    if k < NAME_UNITS {
      CodeAt(name, k);
      if k < |s| {
        assert s[k..][0] == s[k] && s[k..][1..] == s[k + 1..];
        NameFromIs(name, k + 1);
      }
    }
  }

  /** An entry shows the clipped name. */
  lemma NameRoundTrip(name: seq<u16>)
    ensures NameFrom(NameBytes(name), 0) == Displayed(Clip(name))
  {
    NameFromIs(name, 0);
    assert Clip(name)[0..] == Clip(name);
  }

  predicate Exactly(shown: seq<u8>, name: seq<u16>) {
    |shown| == |name| && forall i | 0 <= i < |name| :: shown[i] as int == name[i]
  }

  predicate AsciiName(name: seq<u16>) { forall i | 0 <= i < |name| :: 0 < name[i] <= 0x7f }

  lemma {:induction false} DisplayedLen(name: seq<u16>)
    ensures |Displayed(name)| <= |name|
  {
    if name != [] {
      DisplayedLen(name[1..]);
    }
  }

  lemma {:induction false} DisplayedExact(name: seq<u16>)
    ensures Exactly(Displayed(name), name) <==> AsciiName(name)
  {
    if name != [] {
      var t := name[1..];
      DisplayedExact(t);
      assert name == [name[0]] + t;
      if name[0] != 0 {
        assert Displayed(name) == [Shown(name[0])] + Displayed(t);
        assert Exactly(Displayed(name), name) <==> Shown(name[0]) as int == name[0] && Exactly(Displayed(t), t) by {
          ExactCons(Shown(name[0]), Displayed(t), name[0], t);
        }
      }
    }
  }

  lemma ExactCons(b: u8, s: seq<u8>, u: u16, t: seq<u16>)
    ensures Exactly([b] + s, [u] + t) <==> b as int == u && Exactly(s, t)
  {
    var l, r := [b] + s, [u] + t;
    if Exactly(l, r) {
      assert l[0] as int == r[0];
      forall i | 0 <= i < |t|
        ensures s[i] as int == t[i]
      {
        assert l[i + 1] as int == r[i + 1];
      }
    }
  }

  /** A name survives exactly when it is ASCII without NUL and at most 36 long. */
  lemma NameKeptIff(name: seq<u16>)
    ensures Exactly(NameFrom(NameBytes(name), 0), name) <==> AsciiName(name) && |name| <= NAME_UNITS
  {
    NameRoundTrip(name);
    DisplayedLen(Clip(name));
    DisplayedExact(name);
  }

  /** Three names that do not survive: an accented letter shows as a question
      mark, what follows a NUL is dropped, and so is a 37th unit. */
  lemma NamesCanChange(long: seq<u16>)
    requires |long| == 37 && forall i | 0 <= i < 37 :: long[i] == 65
    ensures NameFrom(NameBytes([0xe9]), 0) == [0x3f]
    ensures NameFrom(NameBytes([65, 0, 66]), 0) == [65]
    ensures |NameFrom(NameBytes(long), 0)| <= 36
  {
    NameRoundTrip([0xe9]);
    var cut: seq<u16> := [65, 0, 66];
    NameRoundTrip(cut);
    assert cut[1..] == [0, 66];
    assert Displayed([0, 66]) == [];
    NameRoundTrip(long);
    DisplayedLen(Clip(long));
  }

  // ---- entries ---------------------------------------------------------------------

  function EncodeEntry(s: Spec): (r: seq<u8>)
    ensures |r| == ENTRY_SIZE
  {
    s.typeGuid + (s.uniqueGuid + (LE(s.first, 8) + (LE(s.last, 8) + (LE(s.attributes, 8) + NameBytes(s.name)))))
  }

  function ParsePartition(data: seq<u8>, index: nat): Result<Partition>
    requires |data| >= ENTRY_SIZE
  {
    var first, last := Field(data, 32, 8), Field(data, 40, 8);
    if first == 0 || first > last || ZeroGuid(data[16..32]) then Err(InvalidPartition)
    else Ok(Partition(index, data[..16], data[16..32], first, last, Field(data, 48, 8), NameFrom(data[56..128], 0)))
  }

  /** The partition a request reads back as. */
  function PartitionOf(s: Spec, index: nat): Partition {
    Partition(index, s.typeGuid, s.uniqueGuid, s.first, s.last, s.attributes, Displayed(Clip(s.name)))
  }

  lemma EntryFields(s: Spec)
    ensures var b := EncodeEntry(s);
      && b[..16] == s.typeGuid && b[16..32] == s.uniqueGuid && b[32..40] == LE(s.first, 8)
      && b[40..48] == LE(s.last, 8) && b[48..56] == LE(s.attributes, 8) && b[56..128] == NameBytes(s.name)
  {
    hide LE, NameBytes;
    var t4 := LE(s.attributes, 8) + NameBytes(s.name);
    var t3 := LE(s.last, 8) + t4;
    var t2 := LE(s.first, 8) + t3;
    var t1 := s.uniqueGuid + t2;
    var b := EncodeEntry(s);
    assert b[0..] == b == s.typeGuid + t1;
    Peel(b, 0, s.typeGuid, t1);
    Peel(b, 16, s.uniqueGuid, t2);
    Peel(b, 32, LE(s.first, 8), t3);
    Peel(b, 40, LE(s.last, 8), t4);
    Peel(b, 48, LE(s.attributes, 8), NameBytes(s.name));
  }

  lemma EntryRoundTrip(s: Spec, index: nat)
    ensures EncodeEntry(s)[..16] == s.typeGuid
    ensures ParsePartition(EncodeEntry(s), index) ==
      if s.first == 0 || s.first > s.last || ZeroGuid(s.uniqueGuid) then Err(InvalidPartition)
      else Ok(PartitionOf(s, index))
  {
    hide LE, FromLE, NameFrom, NameBytes, Displayed, EncodeEntry, ZeroGuid;
    EntryFields(s);
    LE64(s.first);
    LE64(s.last);
    LE64(s.attributes);
    NameRoundTrip(s.name);
  }

  /** Entry `i` of the table for `specs`. */
  function EntryFor(specs: seq<Spec>, i: nat): (r: seq<u8>)
    ensures |r| == ENTRY_SIZE
  {
    if i < |specs| then EncodeEntry(specs[i]) else Zeros(ENTRY_SIZE)
  }

  /** Entries `[from, from + n)`. */
  function EntryRun(specs: seq<Spec>, from: nat, n: nat): (r: seq<u8>)
    ensures |r| == n * ENTRY_SIZE
  {
    if n == 0 then [] else EntryRun(specs, from, n - 1) + EntryFor(specs, from + n - 1)
  }

  lemma {:induction false} EntryRunConcat(specs: seq<Spec>, from: nat, m: nat, n: nat)
    ensures EntryRun(specs, from, m + n) == EntryRun(specs, from, m) + EntryRun(specs, from + m, n)
  {
    hide EntryFor;
    if n > 0 {
      EntryRunConcat(specs, from, m, n - 1);
    } else {
      assert EntryRun(specs, from + m, 0) == [];
    }
  }

  lemma {:induction false} EntryRunAt(specs: seq<Spec>, from: nat, n: nat, i: nat)
    requires i < n
    ensures EntryRun(specs, from, n)[i * ENTRY_SIZE..(i + 1) * ENTRY_SIZE] == EntryFor(specs, from + i)
  {
    hide EntryFor;
    var k := n - 1;
    if i < k {
      EntryRunAt(specs, from, k, i);
      assert EntryRun(specs, from, n)[i * ENTRY_SIZE..(i + 1) * ENTRY_SIZE]
        == EntryRun(specs, from, k)[i * ENTRY_SIZE..(i + 1) * ENTRY_SIZE];
    }
  }

  // ---- header ----------------------------------------------------------------------

  ghost predicate Fits(h: Header) {
    && h.current < 0x1_0000_0000_0000_0000 && h.backup < 0x1_0000_0000_0000_0000
    && h.firstUsable < 0x1_0000_0000_0000_0000 && h.lastUsable < 0x1_0000_0000_0000_0000
    && h.entriesLba < 0x1_0000_0000_0000_0000 && h.entryCount < 0x1_0000_0000
    && h.entrySize < 0x1_0000_0000 && h.entriesCrc < 0x1_0000_0000
  }

  function HeaderHead(): (r: seq<u8>)
    ensures |r| == 16
  {
    SIGNATURE + LE(REVISION, 4) + LE(HEADER_SIZE, 4)
  }

  /** What follows the checksum field, up to the entry count. */
  function HeaderMid(h: Header): (r: seq<u8>)
    ensures |r| == 60
  {
    var t := LE(h.entriesLba, 8);
    var t := h.diskGuid + t;
    var t := LE(h.lastUsable, 8) + t;
    var t := LE(h.firstUsable, 8) + t;
    var t := LE(h.backup, 8) + t;
    var t := LE(h.current, 8) + t;
    Zeros(4) + t
  }

  /** What follows the checksum field. */
  function HeaderTail(h: Header): (r: seq<u8>)
    ensures |r| == 72
  {
    HeaderMid(h) + LE(h.entryCount, 4) + LE(h.entrySize, 4) + LE(h.entriesCrc, 4)
  }

  function HeaderCrc(h: Header): u32 { Crc.Crc32(HeaderHead() + Zeros(4) + HeaderTail(h)) }

  /** The block that holds header `h`. */
  function HeaderBlock(h: Header, size: nat): (b: seq<u8>)
    requires size >= HEADER_SIZE
    ensures |b| == size
  {
    HeaderHead() + LE(HeaderCrc(h), 4) + HeaderTail(h) + Zeros(size - HEADER_SIZE)
  }

  /** The stored checksum is that of the header with the field zeroed. */
  predicate HeaderSealed(data: seq<u8>) {
    && |data| >= HEADER_SIZE
    && HEADER_SIZE <= Field(data, 12, 4) <= |data|
    && Field(data, 16, 4) == Crc.Crc32(data[..16] + Zeros(4) + data[20..Field(data, 12, 4)])
  }

  predicate BadHeader(data: seq<u8>, size: nat, blocks: nat)
    requires |data| == size >= 512 && blocks > 0
  {
    var headerSize := Field(data, 12, 4);
    || Field(data, 8, 4) != REVISION
    || !(HEADER_SIZE <= headerSize <= size)
    || Field(data, 24, 8) != 1
    || Field(data, 32, 8) != blocks - 1
  }

  /** The layout a header describes is out of bounds. */
  predicate BadLayout(h: Header, size: nat, blocks: nat)
    requires size > 0 && blocks > 0
  {
    || h.entryCount == 0 || h.entryCount > ENTRY_COUNT || h.entrySize < ENTRY_SIZE
    || !PowerOfTwo(h.entrySize) || h.entrySize > size
    || h.firstUsable > h.lastUsable || h.lastUsable >= blocks - 1 || ZeroGuid(h.diskGuid)
    || h.entriesLba + CeilDiv(h.entryCount * h.entrySize, size) >= 0x1_0000_0000_0000_0000
    || h.entriesLba < 2 || h.entriesLba + CeilDiv(h.entryCount * h.entrySize, size) > h.firstUsable
  }

  function HeaderFields(data: seq<u8>): Header
    requires |data| >= HEADER_SIZE
  {
    Header(Field(data, 24, 8), Field(data, 32, 8), Field(data, 40, 8), Field(data, 48, 8), data[56..72],
      Field(data, 72, 8), Field(data, 80, 4), Field(data, 84, 4), Field(data, 88, 4))
  }

  function ParseHeader(data: seq<u8>, size: nat, blocks: nat): Result<Header>
    requires |data| == size >= 512 && blocks > 0
  {
    if data[..8] != SIGNATURE then Err(InvalidSignature)
    else if BadHeader(data, size, blocks) then Err(InvalidHeader)
    else if !HeaderSealed(data) then Err(InvalidHeaderCrc)
    else if BadLayout(HeaderFields(data), size, blocks) then Err(InvalidHeader)
    else Ok(HeaderFields(data))
  }

  lemma MidFields(h: Header)
    ensures var t := HeaderMid(h);
      && t[4..12] == LE(h.current, 8) && t[12..20] == LE(h.backup, 8) && t[20..28] == LE(h.firstUsable, 8)
      && t[28..36] == LE(h.lastUsable, 8) && t[36..52] == h.diskGuid && t[52..60] == LE(h.entriesLba, 8)
  {
    hide LE, Zeros;
    var t6 := LE(h.entriesLba, 8);
    var t5 := h.diskGuid + t6;
    var t4 := LE(h.lastUsable, 8) + t5;
    var t3 := LE(h.firstUsable, 8) + t4;
    var t2 := LE(h.backup, 8) + t3;
    var t1 := LE(h.current, 8) + t2;
    var b := HeaderMid(h);
    assert b[0..] == b == Zeros(4) + t1;
    Peel(b, 0, Zeros(4), t1);
    Peel(b, 4, LE(h.current, 8), t2);
    Peel(b, 12, LE(h.backup, 8), t3);
    Peel(b, 20, LE(h.firstUsable, 8), t4);
    Peel(b, 28, LE(h.lastUsable, 8), t5);
    Peel(b, 36, h.diskGuid, t6);
    assert b[52..60] == b[52..];
  }

  lemma TailFields(h: Header)
    ensures var t := HeaderTail(h);
      && t[4..12] == LE(h.current, 8) && t[12..20] == LE(h.backup, 8) && t[20..28] == LE(h.firstUsable, 8)
      && t[28..36] == LE(h.lastUsable, 8) && t[36..52] == h.diskGuid && t[52..60] == LE(h.entriesLba, 8)
      && t[60..64] == LE(h.entryCount, 4) && t[64..68] == LE(h.entrySize, 4) && t[68..72] == LE(h.entriesCrc, 4)
  {
    hide LE, HeaderMid;
    MidFields(h);
    var m, t := HeaderMid(h), HeaderTail(h);
    assert t[..60] == m;
    assert t[4..12] == m[4..12] && t[12..20] == m[12..20] && t[20..28] == m[20..28];
    assert t[28..36] == m[28..36] && t[36..52] == m[36..52] && t[52..60] == m[52..60];
    var size, crc := LE(h.entrySize, 4), LE(h.entriesCrc, 4);
    assert t[60..] == LE(h.entryCount, 4) + (size + crc);
    Peel(t, 60, LE(h.entryCount, 4), size + crc);
    Peel(t, 64, size, crc);
    assert t[68..72] == t[68..];
  }

  lemma TailInBlock(h: Header, size: nat, i: nat, j: nat)
    requires size >= HEADER_SIZE && i <= j <= 72
    ensures HeaderBlock(h, size)[20 + i..20 + j] == HeaderTail(h)[i..j]
  {
    hide HeaderHead, HeaderTail, HeaderCrc, LE;
    SliceInside(HeaderHead() + LE(HeaderCrc(h), 4), HeaderTail(h), Zeros(size - HEADER_SIZE), i, j - i);
  }

  lemma BlockHead(h: Header, size: nat)
    requires size >= HEADER_SIZE
    ensures var b := HeaderBlock(h, size);
      && b[..8] == SIGNATURE && Field(b, 8, 4) == REVISION && Field(b, 12, 4) == HEADER_SIZE
      && b[..16] == HeaderHead() && Field(b, 16, 4) == HeaderCrc(h)
  {
    hide HeaderTail, HeaderCrc, LE, FromLE;
    var b := HeaderBlock(h, size);
    var head := HeaderHead();
    assert b[..16] == head && b[16..20] == LE(HeaderCrc(h), 4);
    assert b[..8] == head[..8] && b[8..12] == head[8..12] && b[12..16] == head[12..16];
    LE32(REVISION);
    LE32(HEADER_SIZE);
    LE32(HeaderCrc(h));
  }

  /** Every header block that is written carries its own checksum. */
  lemma BlockSealed(h: Header, size: nat)
    requires size >= HEADER_SIZE
    ensures HeaderSealed(HeaderBlock(h, size))
  {
    hide HeaderTail, HeaderHead, HeaderBlock, LE, FromLE, Field;
    BlockHead(h, size);
    TailInBlock(h, size, 0, 72);
    assert HeaderTail(h)[0..72] == HeaderTail(h);
  }

  lemma BlockFields(h: Header, size: nat)
    requires size >= HEADER_SIZE && Fits(h)
    ensures HeaderFields(HeaderBlock(h, size)) == h
  {
    hide HeaderTail, HeaderHead, HeaderBlock, HeaderCrc, LE, FromLE;
    TailFields(h);
    TailInBlock(h, size, 4, 12);
    TailInBlock(h, size, 12, 20);
    TailInBlock(h, size, 20, 28);
    TailInBlock(h, size, 28, 36);
    TailInBlock(h, size, 36, 52);
    TailInBlock(h, size, 52, 60);
    TailInBlock(h, size, 60, 64);
    TailInBlock(h, size, 64, 68);
    TailInBlock(h, size, 68, 72);
    LE64(h.current);
    LE64(h.backup);
    LE64(h.firstUsable);
    LE64(h.lastUsable);
    LE64(h.entriesLba);
    LE32(h.entryCount);
    LE32(h.entrySize);
    LE32(h.entriesCrc);
  }

  /** A primary header reads back as itself. */
  lemma HeaderRoundTrip(h: Header, size: nat, blocks: nat)
    requires size >= 512 && blocks > 0 && Fits(h) && h.current == 1 && h.backup == blocks - 1
    requires !BadLayout(h, size, blocks)
    ensures ParseHeader(HeaderBlock(h, size), size, blocks) == Ok(h)
  {
    hide HeaderTail, HeaderHead, HeaderBlock, HeaderCrc, LE, FromLE, BadLayout, HeaderSealed, Field;
    BlockHead(h, size);
    BlockSealed(h, size);
    BlockFields(h, size);
  }

  // ---- the whole table ---------------------------------------------------------------

  predicate Clash(a: Partition, b: Partition) {
    a.uniqueGuid == b.uniqueGuid || (a.first <= b.last && b.first <= a.last)
  }

  /** Taking one more partition into those already read. */
  function Admit(ps: seq<Partition>, p: Partition, h: Header): Result<seq<Partition>> {
    if p.first < h.firstUsable || p.last > h.lastUsable then Err(InvalidPartition)
    else if |ps| >= MAX_PARTITIONS then Err(TooManyEntries)
    else if exists i :: 0 <= i < |ps| && Clash(p, ps[i]) then Err(InvalidPartition)
    else Ok(ps + [p])
  }

  function TakeEntry(ps: seq<Partition>, data: seq<u8>, index: nat, h: Header): Result<seq<Partition>>
    requires |data| >= ENTRY_SIZE
  {
    if ZeroGuid(data[..16]) then Ok(ps)
    else
      match ParsePartition(data, index)
      case Err(e) => Err(e)
      case Ok(p) => Admit(ps, p, h)
  }

  /** The partitions in the first `n` entries of a table. */
  function ParseEntries(bytes: seq<u8>, h: Header, n: nat): Result<seq<Partition>>
    requires h.entrySize >= ENTRY_SIZE && n * h.entrySize <= |bytes|
    decreases n
  {
    if n == 0 then Ok([])
    else
      EntryEnd(n - 1, h.entrySize);
      match ParseEntries(bytes, h, n - 1)
      case Err(e) => Err(e)
      case Ok(ps) => TakeEntry(ps, bytes[(n - 1) * h.entrySize..(n - 1) * h.entrySize + h.entrySize], n, h)
  }

  lemma EntryEnd(n: nat, size: nat)
    ensures n * size + size == (n + 1) * size
  {
  }

  predicate GoodBlockSize(size: nat) { 512 <= size <= 4096 && PowerOfTwo(size) }

  function TableBlocks(size: nat): nat
    requires size > 0
  {
    CeilDiv(ENTRY_COUNT * ENTRY_SIZE, size)
  }

  function CheckDevice(size: nat, blocks: nat): Result<()> {
    if !GoodBlockSize(size) then Err(UnsupportedBlockSize)
    else if blocks < 2 + TableBlocks(size) * 2 + 1 then Err(DiskTooSmall)
    else Ok(())
  }

  lemma {:induction false} SmallPowers(n: nat)
    requires n <= 4096
    ensures PowerOfTwo(n) ==> n in {1, 2, 4, 8, 16, 32, 64, 128, 256, 512, 1024, 2048, 4096}
    decreases n
  {
    if n > 1 && n % 2 == 0 {
      SmallPowers(n / 2);
    }
  }

  lemma Shapes()
    ensures TableBlocks(512) == 32 && TableBlocks(1024) == 16 && TableBlocks(2048) == 8 && TableBlocks(4096) == 4
  {
  }

  lemma Below(total: nat, size: nat, k: nat)
    requires size > 0 && k < CeilDiv(total, size)
    ensures k * size < total
  {
    var q := (total + size - 1) / size;
    assert size * q <= total + size - 1;
    MulMono(k + 1, q, size);
  }

  function EntryBlocks(h: Header, size: nat): nat
    requires size > 0
  {
    CeilDiv(h.entryCount * h.entrySize, size)
  }

  /** The bytes the entries of a header occupy. */
  function EntryBytes(disk: Sectors, h: Header, size: nat): seq<u8>
    requires size > 0 && Sized(disk, size) && h.entriesLba + EntryBlocks(h, size) <= |disk|
    ensures |EntryBytes(disk, h, size)| == h.entryCount * h.entrySize
  {
    var region := disk[h.entriesLba..h.entriesLba + EntryBlocks(h, size)];
    FlatLen(region, size);
    CeilCovers(h.entryCount * h.entrySize, size);
    Flat(region)[..h.entryCount * h.entrySize]
  }

  lemma CeilCovers(a: nat, b: nat)
    requires b > 0
    ensures a <= CeilDiv(a, b) * b
  {
    var n := a + b - 1;
    assert n == b * (n / b) + n % b;
  }

  function ReadEntries(disk: Sectors, h: Header, size: nat): Result<Table>
    requires size > 0 && Sized(disk, size) && h.entriesLba + EntryBlocks(h, size) <= |disk|
    requires h.entrySize >= ENTRY_SIZE
  {
    var bytes := EntryBytes(disk, h, size);
    match ParseEntries(bytes, h, h.entryCount)
    case Err(e) => Err(e)
    case Ok(ps) =>
      if Crc.Crc32(bytes) != h.entriesCrc then Err(InvalidTableCrc)
      else Ok(Table(h.diskGuid, h.firstUsable, h.lastUsable, ps))
  }

  /** What reading the partition table of a disk gives. */
  function ReadTable(disk: Sectors, size: nat): Result<Table>
    requires size > 0 && Sized(disk, size)
  {
    match CheckDevice(size, |disk|)
    case Err(e) => Err(e)
    case Ok(_) =>
      match ParseHeader(disk[1], size, |disk|)
      case Err(e) => Err(e)
      case Ok(h) => ReadEntries(disk, h, size)
  }

  // ---- reading back what was written ---------------------------------------------------

  ghost predicate SpecOk(s: Spec, first: nat, last: nat) {
    !ZeroGuid(s.typeGuid) && !ZeroGuid(s.uniqueGuid) && first <= s.first <= s.last <= last
  }

  predicate SpecsClash(a: Spec, b: Spec) {
    a.uniqueGuid == b.uniqueGuid || (a.first <= b.last && b.first <= a.last)
  }

  /** A layout the writer accepts. */
  ghost predicate SpecsOk(specs: seq<Spec>, first: nat, last: nat) {
    && (forall i | 0 <= i < |specs| :: SpecOk(specs[i], first, last))
    && (forall i, j | 0 <= j < i < |specs| :: !SpecsClash(specs[i], specs[j]))
  }

  function Listed(specs: seq<Spec>): (ps: seq<Partition>)
    ensures |ps| == |specs|
  {
    seq(|specs|, i requires 0 <= i < |specs| => PartitionOf(specs[i], i + 1))
  }

  /** The table of a layout parses to exactly its partitions, in order; one more
      than thirty-two of them are refused. */
  lemma {:induction false} ParseWritten(specs: seq<Spec>, h: Header, total: nat, n: nat)
    requires n <= total && h.entrySize == ENTRY_SIZE && h.firstUsable > 0
    requires SpecsOk(specs, h.firstUsable, h.lastUsable)
    ensures ParseEntries(EntryRun(specs, 0, total), h, n) ==
      var k := if n < |specs| then n else |specs|;
      if k > MAX_PARTITIONS then Err(TooManyEntries) else Ok(Listed(specs[..k]))
  {
    hide EncodeEntry, ParsePartition, EntryRun, Admit, ZeroGuid;
    if n == 0 {
      assert Listed(specs[..0]) == [];
    } else {
      var m := n - 1;
      ParseWritten(specs, h, total, m);
      EntryRunAt(specs, 0, total, m);
      EntryEnd(m, ENTRY_SIZE);
      if m < |specs| {
        assert SpecOk(specs[m], h.firstUsable, h.lastUsable);
        EntryRoundTrip(specs[m], n);
        if m <= MAX_PARTITIONS {
          AdmitNext(specs, h, m);
        }
      } else {
        ZerosSkipped();
        assert specs[..|specs|] == specs;
      }
    }
  }

  lemma ZerosSkipped()
    ensures ZeroGuid(Zeros(ENTRY_SIZE)[..16])
  {
  }

  lemma AdmitNext(specs: seq<Spec>, h: Header, m: nat)
    requires m < |specs| && SpecsOk(specs, h.firstUsable, h.lastUsable)
    ensures Admit(Listed(specs[..m]), PartitionOf(specs[m], m + 1), h) ==
      if m >= MAX_PARTITIONS then Err(TooManyEntries) else Ok(Listed(specs[..m + 1]))
  {
    hide Displayed, Clip;
    assert SpecOk(specs[m], h.firstUsable, h.lastUsable);
    var ps, p := Listed(specs[..m]), PartitionOf(specs[m], m + 1);
    forall i | 0 <= i < m
      ensures !Clash(p, ps[i])
    {
      assert !SpecsClash(specs[m], specs[i]);
    }
    assert Listed(specs[..m + 1]) == ps + [p];
  }

  /** The disk holds the table `specs` behind a primary header. */
  ghost predicate Written(disk: Sectors, h: Header, specs: seq<Spec>, size: nat)
    requires size > 0 && Sized(disk, size)
  {
    && CheckDevice(size, |disk|).Ok?
    && Fits(h) && h.current == 1 && h.backup == |disk| - 1 && !BadLayout(h, size, |disk|)
    && disk[1] == HeaderBlock(h, size)
    && h.entrySize == ENTRY_SIZE && |specs| <= h.entryCount
    && EntryBytes(disk, h, size) == EntryRun(specs, 0, h.entryCount)
    && h.entriesCrc == Crc.Crc32(EntryRun(specs, 0, h.entryCount))
    && SpecsOk(specs, h.firstUsable, h.lastUsable)
  }

  /** Reading such a disk gives exactly those partitions, in order. */
  lemma ReadBack(disk: Sectors, h: Header, specs: seq<Spec>, size: nat)
    requires size > 0 && Sized(disk, size) && |disk| < 0x1_0000_0000_0000_0000 && Written(disk, h, specs, size)
    ensures ReadTable(disk, size) ==
      if |specs| > MAX_PARTITIONS then Err(TooManyEntries)
      else Ok(Table(h.diskGuid, h.firstUsable, h.lastUsable, Listed(specs)))
  {
    hide EntryBytes, EntryRun, ParseEntries, SpecsOk, HeaderBlock, ParseHeader, Fits, PowerOfTwo;
    HeaderRoundTrip(h, size, |disk|);
    ParseWritten(specs, h, h.entryCount, h.entryCount);
    assert specs[..|specs|] == specs;
  }
}
