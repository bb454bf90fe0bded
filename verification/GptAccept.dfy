/** Which disks read as a partition table, and as which one: an exact condition
    on the bytes of the disk, for every disk. */
module GptAccept {
  import opened Bytes
  import opened Blocks
  import opened FsFormat
  import opened GptFormat
  import Crc

  // ---- the device ------------------------------------------------------------------

  predicate DeviceIs(size: nat, blocks: nat) { size in {512, 1024, 2048, 4096} && blocks >= 3 + 2 * (16384 / size) }

  lemma DeviceIff(size: nat, blocks: nat)
    ensures CheckDevice(size, blocks).Ok? <==> DeviceIs(size, blocks)
  {
    if size <= 4096 {
      SmallPowers(size);
    }
    Powers();
    Shapes();
  }

  lemma Powers()
    ensures PowerOfTwo(128) && PowerOfTwo(256) && PowerOfTwo(512) && PowerOfTwo(1024) && PowerOfTwo(2048)
    ensures PowerOfTwo(4096)
  {
    assert PowerOfTwo(16) && PowerOfTwo(128) && PowerOfTwo(1024);
  }

  // ---- the header ------------------------------------------------------------------

  predicate NonZero(s: seq<u8>) { exists i :: 0 <= i < |s| && s[i] != 0 }

  /** The first `n` bytes carry their own CRC-32, taken with its field zero. */
  predicate SealedAs(data: seq<u8>, n: nat)
    requires |data| >= 92
  {
    && 92 <= n <= |data| && data[12..16] == LE(n, 4)
    && data[16..20] == LE(Crc.Crc32(data[..16] + [0, 0, 0, 0] + data[20..n]), 4)
  }

  /** The table of entries lies between the header and the usable blocks. */
  predicate LaidOut(h: Header, size: nat, blocks: nat) {
    && 1 <= h.entryCount <= 128 && h.entrySize in {128, 256, 512, 1024, 2048, 4096} && h.entrySize <= size
    && 2 <= h.entriesLba <= h.firstUsable <= h.lastUsable && h.lastUsable + 2 <= blocks && NonZero(h.diskGuid)
    && h.entryCount * h.entrySize <= (h.firstUsable - h.entriesLba) * size
  }

  /** Block 1 is the primary header `h` of a disk of `blocks` blocks. */
  ghost predicate HeaderIs(data: seq<u8>, size: nat, blocks: nat, h: Header) {
    && |data| == size >= 512 && Fits(h) && h.current == 1 && h.backup + 1 == blocks
    && data[..8] == [0x45, 0x46, 0x49, 0x20, 0x50, 0x41, 0x52, 0x54] && data[8..12] == [0, 0, 1, 0]
    && (exists n: nat :: SealedAs(data, n))
    && data[24..32] == LE(h.current, 8) && data[32..40] == LE(h.backup, 8)
    && data[40..48] == LE(h.firstUsable, 8) && data[48..56] == LE(h.lastUsable, 8) && data[56..72] == h.diskGuid
    && data[72..80] == LE(h.entriesLba, 8) && data[80..84] == LE(h.entryCount, 4)
    && data[84..88] == LE(h.entrySize, 4) && data[88..92] == LE(h.entriesCrc, 4)
    && LaidOut(h, size, blocks)
  }

  lemma ZeroIff(g: seq<u8>)
    ensures ZeroGuid(g) <==> !NonZero(g)
  {
  }

  lemma SealedIff(data: seq<u8>)
    requires 92 <= |data| < 0x1_0000_0000
    ensures HeaderSealed(data) <==> exists n: nat :: SealedAs(data, n)
    ensures (exists n: nat :: SealedAs(data, n)) ==> 92 <= Field(data, 12, 4) <= |data|
  {
    hide LE, Field;
    var n := Field(data, 12, 4);
    Field32(data, 12, n);
    assert Zeros(4) == [0, 0, 0, 0];
    if HeaderSealed(data) {
      Field32(data, 16, Crc.Crc32(data[..16] + [0, 0, 0, 0] + data[20..n]));
      assert SealedAs(data, n);
    }
    forall m: nat | SealedAs(data, m)
      ensures HeaderSealed(data) && 92 <= Field(data, 12, 4) <= |data|
    {
      SealedField(data, m);
    }
  }

  lemma SealedField(data: seq<u8>, n: nat)
    requires 92 <= |data| < 0x1_0000_0000 && SealedAs(data, n)
    ensures Field(data, 12, 4) == n && HeaderSealed(data)
  {
    hide LE, Field;
    assert Zeros(4) == [0, 0, 0, 0];
    Field32(data, 12, n);
    Field32(data, 16, Crc.Crc32(data[..16] + [0, 0, 0, 0] + data[20..n]));
  }

  lemma RevisionIff(data: seq<u8>)
    requires |data| >= 12
    ensures Field(data, 8, 4) == REVISION <==> data[8..12] == [0, 0, 1, 0]
  {
    Field32(data, 8, REVISION);
    assert LE(REVISION, 4) == [0, 0, 1, 0];
  }

  lemma FieldsIff(data: seq<u8>, h: Header)
    requires |data| >= 92
    ensures HeaderFields(data) == h <==>
      && Fits(h)
      && data[24..32] == LE(h.current, 8) && data[32..40] == LE(h.backup, 8)
      && data[40..48] == LE(h.firstUsable, 8) && data[48..56] == LE(h.lastUsable, 8) && data[56..72] == h.diskGuid
      && data[72..80] == LE(h.entriesLba, 8) && data[80..84] == LE(h.entryCount, 4)
      && data[84..88] == LE(h.entrySize, 4) && data[88..92] == LE(h.entriesCrc, 4)
  {
    hide LE, Field;
    NumbersFit(data);
    if Fits(h) {
      Field64(data, 24, h.current);
      Field64(data, 32, h.backup);
      Field64(data, 40, h.firstUsable);
      Field64(data, 48, h.lastUsable);
      Field64(data, 72, h.entriesLba);
      Field32(data, 80, h.entryCount);
      Field32(data, 84, h.entrySize);
      Field32(data, 88, h.entriesCrc);
    }
  }

  lemma NumbersFit(data: seq<u8>)
    requires |data| >= 92
    ensures Fits(HeaderFields(data))
  {
    hide LE, Field;
    Field64(data, 24, 0);
    Field64(data, 32, 0);
    Field64(data, 40, 0);
    Field64(data, 48, 0);
    Field64(data, 72, 0);
    Field32(data, 80, 0);
    Field32(data, 84, 0);
    Field32(data, 88, 0);
  }

  lemma CeilAtMost(a: nat, b: nat, k: nat)
    requires b > 0
    ensures CeilDiv(a, b) <= k <==> a <= k * b
  {
    CeilCovers(a, b);
    if CeilDiv(a, b) <= k {
      MulMono(CeilDiv(a, b), k, b);
    } else {
      Below(a, b, k);
    }
  }

  lemma LayoutIff(h: Header, size: nat, blocks: nat)
    requires Fits(h) && DeviceIs(size, blocks)
    ensures !BadLayout(h, size, blocks) <==> LaidOut(h, size, blocks)
  {
    hide PowerOfTwo, NonZero, ZeroGuid, CeilDiv;
    ZeroIff(h.diskGuid);
    Powers();
    if h.entrySize <= 4096 {
      SmallPowers(h.entrySize);
    }
    if h.entriesLba <= h.firstUsable {
      CeilAtMost(h.entryCount * h.entrySize, size, h.firstUsable - h.entriesLba);
    }
  }

  /** The header is accepted, as `h`, exactly when block 1 is that header. */
  lemma HeaderIff(data: seq<u8>, size: nat, blocks: nat, h: Header)
    requires |data| == size && DeviceIs(size, blocks)
    ensures ParseHeader(data, size, blocks) == Ok(h) <==> HeaderIs(data, size, blocks, h)
  {
    hide LE, HeaderSealed, SealedAs, BadLayout, LaidOut;
    FieldsIff(data, h);
    RevisionIff(data);
    SealedIff(data);
    if Fits(h) {
      LayoutIff(h, size, blocks);
    }
  }

  // ---- one entry -------------------------------------------------------------------

  function Unit(data: seq<u8>, k: nat): nat
    requires 2 * k + 2 <= |data|
  {
    data[2 * k] as nat + 256 * data[2 * k + 1] as nat
  }

  /** A unit shows as itself if it is ASCII and as a question mark if not. */
  predicate ShownAs(data: seq<u8>, k: nat, b: u8) {
    2 * k + 2 <= |data| && Unit(data, k) != 0
    && b as nat == if Unit(data, k) < 128 then Unit(data, k) else '?' as nat
  }

  /** From unit `k` on, the field shows `name`, up to the first zero unit. */
  predicate ShowsFrom(data: seq<u8>, k: nat, name: seq<u8>) {
    && |data| == 72 && k + |name| <= 36
    && (forall i | 0 <= i < |name| :: ShownAs(data, k + i, name[i]))
    && (k + |name| < 36 ==> Unit(data, k + |name|) == 0)
  }

  lemma CodeIs(data: seq<u8>, k: nat)
    requires 2 * k + 2 <= |data|
    ensures Code(data, k) == Unit(data, k)
  {
    var s := data[2 * k..2 * k + 2];
    var t := s[1..];
    assert s[0] == data[2 * k] && t[0] == data[2 * k + 1] && t[1..] == [];
    assert FromLE(t) == t[0] as nat + 256 * FromLE(t[1..]);
  }

  lemma {:induction false} NameIff(data: seq<u8>, k: nat, name: seq<u8>)
    requires |data| == 72 && k <= 36
    ensures NameFrom(data, k) == name <==> ShowsFrom(data, k, name)
    decreases 36 - k
  {
    hide Code, Unit;
    if k < 36 {
      CodeIs(data, k);
      if name == [] {
      } else if Code(data, k) == 0 {
        assert !ShownAs(data, k + 0, name[0]);
      } else {
        NameIff(data, k + 1, name[1..]);
        assert name == [name[0]] + name[1..];
        ShowsCons(data, k, name);
      }
    }
  }

  lemma ShowsCons(data: seq<u8>, k: nat, name: seq<u8>)
    requires |data| == 72 && k < 36 && name != []
    ensures ShowsFrom(data, k, name) <==> ShownAs(data, k, name[0]) && ShowsFrom(data, k + 1, name[1..])
  {
    hide Unit, ShownAs;
    var t := name[1..];
    assert k + 1 + |t| == k + |name|;
    if ShowsFrom(data, k + 1, t) && ShownAs(data, k, name[0]) {
      forall i | 0 <= i < |name|
        ensures ShownAs(data, k + i, name[i])
      {
        if i > 0 {
          assert ShownAs(data, k + 1 + (i - 1), t[i - 1]);
          assert k + 1 + (i - 1) == k + i;
        }
      }
    }
    if ShowsFrom(data, k, name) {
      assert ShownAs(data, k + 0, name[0]);
      forall i | 0 <= i < |t|
        ensures ShownAs(data, k + 1 + i, t[i])
      {
        assert ShownAs(data, k + (i + 1), name[i + 1]);
        assert k + (i + 1) == k + 1 + i;
      }
    }
  }

  /** The entry holds partition `p`. */
  ghost predicate EntryIs(data: seq<u8>, p: Partition) {
    && |data| >= 128 && p.first < 0x1_0000_0000_0000_0000 && p.last < 0x1_0000_0000_0000_0000
    && p.attributes < 0x1_0000_0000_0000_0000
    && data[..16] == p.typeGuid && data[16..32] == p.uniqueGuid
    && data[32..40] == LE(p.first, 8) && data[40..48] == LE(p.last, 8) && data[48..56] == LE(p.attributes, 8)
    && ShowsFrom(data[56..128], 0, p.name)
  }

  lemma PartitionIff(data: seq<u8>, index: nat, p: Partition)
    requires |data| >= 128
    ensures ParsePartition(data, index) == Ok(p) <==>
      EntryIs(data, p) && p.index == index && 0 < p.first <= p.last && NonZero(p.uniqueGuid)
  {
    hide LE, Field, NameFrom, ShowsFrom, ZeroGuid, NonZero;
    NameIff(data[56..128], 0, p.name);
    ZeroIff(data[16..32]);
    Field64(data, 32, 0);
    Field64(data, 40, 0);
    Field64(data, 48, 0);
    if p.first < 0x1_0000_0000_0000_0000 && p.last < 0x1_0000_0000_0000_0000
       && p.attributes < 0x1_0000_0000_0000_0000 {
      Field64(data, 32, p.first);
      Field64(data, 40, p.last);
      Field64(data, 48, p.attributes);
    }
  }

  // ---- the table -------------------------------------------------------------------

  /** Entry `i` of the table. */
  function Slot(bytes: seq<u8>, h: Header, i: nat): seq<u8>
    requires h.entrySize >= 128 && (i + 1) * h.entrySize <= |bytes|
    ensures |Slot(bytes, h, i)| == h.entrySize
  {
    EntryEnd(i, h.entrySize);
    bytes[i * h.entrySize..i * h.entrySize + h.entrySize]
  }

  lemma SlotFits(h: Header, i: nat, n: nat)
    requires i < n
    ensures (i + 1) * h.entrySize <= n * h.entrySize
  {
    MulMono(i + 1, n, h.entrySize);
  }

  /** Different identities and no block in common. */
  predicate Separate(a: Partition, b: Partition) {
    a.uniqueGuid != b.uniqueGuid && (a.last < b.first || b.last < a.first)
  }

  ghost predicate Usable(h: Header, p: Partition) {
    0 < p.first && h.firstUsable <= p.first <= p.last <= h.lastUsable && NonZero(p.uniqueGuid)
  }

  /** Entry `p.index` is in use and holds `p`, within the usable blocks. */
  ghost predicate Taken(bytes: seq<u8>, h: Header, n: nat, p: Partition)
    requires h.entrySize >= 128 && n * h.entrySize <= |bytes|
  {
    && 1 <= p.index <= n && Usable(h, p)
    && (SlotFits(h, p.index - 1, n);
        var data := Slot(bytes, h, p.index - 1);
        NonZero(data[..16]) && EntryIs(data, p))
  }

  ghost predicate Used(bytes: seq<u8>, h: Header, n: nat, i: nat)
    requires h.entrySize >= 128 && n * h.entrySize <= |bytes|
  {
    i < n && (SlotFits(h, i, n); NonZero(Slot(bytes, h, i)[..16]))
  }

  ghost predicate Found(ps: seq<Partition>, i: nat) { exists k :: 0 <= k < |ps| && ps[k].index == i + 1 }

  /** The first `n` entries list exactly `ps`: at most thirty-two, each in use,
      in order of their entries, none missing, and separate from each other. */
  ghost predicate Lists(bytes: seq<u8>, h: Header, n: nat, ps: seq<Partition>)
    requires h.entrySize >= 128 && n * h.entrySize <= |bytes|
  {
    && |ps| <= 32
    && (forall k | 0 <= k < |ps| :: Taken(bytes, h, n, ps[k]))
    && (forall j, k | 0 <= j < k < |ps| :: ps[j].index < ps[k].index && Separate(ps[j], ps[k]))
    && (forall i: nat | Used(bytes, h, n, i) :: Found(ps, i))
  }

  lemma AdmitIff(ps: seq<Partition>, p: Partition, h: Header, qs: seq<Partition>)
    ensures Admit(ps, p, h) == Ok(qs) <==>
      && qs == ps + [p] && |ps| < 32 && h.firstUsable <= p.first && p.last <= h.lastUsable
      && forall i | 0 <= i < |ps| :: !Clash(p, ps[i])
  {
  }

  /** An entry not in use changes nothing. */
  lemma ListsSkip(bytes: seq<u8>, h: Header, n: nat, ps: seq<Partition>)
    requires h.entrySize >= 128 && n > 0 && n * h.entrySize <= |bytes| && (n - 1) * h.entrySize <= |bytes|
    requires !Used(bytes, h, n, n - 1)
    ensures Lists(bytes, h, n, ps) <==> Lists(bytes, h, n - 1, ps)
  {
    hide EntryIs, Usable, NonZero, Separate, Slot;
    forall p: Partition
      ensures Taken(bytes, h, n, p) <==> Taken(bytes, h, n - 1, p)
    {
    }
    forall i: nat
      ensures Used(bytes, h, n, i) <==> Used(bytes, h, n - 1, i)
    {
    }
  }

  /** An entry in use is the last partition of the list. */
  lemma ListsTake(bytes: seq<u8>, h: Header, n: nat, qs: seq<Partition>)
    requires h.entrySize >= 128 && n > 0 && n * h.entrySize <= |bytes| && (n - 1) * h.entrySize <= |bytes|
    requires Used(bytes, h, n, n - 1)
    ensures Lists(bytes, h, n, qs) <==>
      && 0 < |qs| <= 32
      && var m := |qs| - 1;
         && Lists(bytes, h, n - 1, qs[..m]) && Taken(bytes, h, n, qs[m]) && qs[m].index == n
         && forall i | 0 <= i < m :: Separate(qs[i], qs[m])
  {
    hide EntryIs, Usable, NonZero, Separate, Slot;
    forall p: Partition
      ensures Taken(bytes, h, n - 1, p) <==> Taken(bytes, h, n, p) && p.index < n
    {
    }
    forall i: nat
      ensures Used(bytes, h, n, i) <==> Used(bytes, h, n - 1, i) || i == n - 1
    {
    }
    if Lists(bytes, h, n, qs) {
      ListsLast(bytes, h, n, qs);
    }
    if |qs| > 0 && Lists(bytes, h, n - 1, qs[..|qs| - 1]) && qs[|qs| - 1].index == n {
      FoundMore(qs, n - 1);
    }
  }

  lemma FoundMore(qs: seq<Partition>, n: nat)
    requires |qs| > 0 && qs[|qs| - 1].index == n + 1
    ensures Found(qs, n) && forall i: nat | Found(qs[..|qs| - 1], i) :: Found(qs, i)
  {
    forall i: nat | Found(qs[..|qs| - 1], i)
      ensures Found(qs, i)
    {
      var k :| 0 <= k < |qs| - 1 && qs[..|qs| - 1][k].index == i + 1;
      assert qs[k].index == i + 1;
    }
  }

  lemma ListsLast(bytes: seq<u8>, h: Header, n: nat, qs: seq<Partition>)
    requires h.entrySize >= 128 && n > 0 && n * h.entrySize <= |bytes| && (n - 1) * h.entrySize <= |bytes|
    requires Used(bytes, h, n, n - 1) && Lists(bytes, h, n, qs)
    ensures |qs| > 0 && qs[|qs| - 1].index == n
    ensures Lists(bytes, h, n - 1, qs[..|qs| - 1])
  {
    hide EntryIs, Usable, NonZero, Separate, Slot;
    assert Found(qs, n - 1);
    var k :| 0 <= k < |qs| && qs[k].index == n;
    var m := |qs| - 1;
    assert Taken(bytes, h, n, qs[m]);
    assert k == m;
    var ps := qs[..m];
    forall i | 0 <= i < m
      ensures Taken(bytes, h, n - 1, ps[i])
    {
      assert Taken(bytes, h, n, qs[i]) && qs[i].index < qs[m].index;
    }
    forall i: nat | Used(bytes, h, n - 1, i)
      ensures Found(ps, i)
    {
      assert Used(bytes, h, n, i);
      var j :| 0 <= j < |qs| && qs[j].index == i + 1;
      assert j < m && ps[j].index == i + 1;
    }
  }

  lemma SeparateIff(p: Partition, q: Partition)
    ensures Clash(p, q) <==> !Separate(q, p)
  {
  }

  /** One entry: skipped if not in use, else it must hold a partition that fits. */
  lemma TakeIff(ps: seq<Partition>, data: seq<u8>, index: nat, h: Header, qs: seq<Partition>)
    requires |data| >= 128
    ensures TakeEntry(ps, data, index, h) == Ok(qs) <==>
      if !NonZero(data[..16]) then qs == ps
      else
        && |qs| == |ps| + 1 <= 32 && qs[..|ps|] == ps && qs[|ps|].index == index
        && Usable(h, qs[|ps|]) && EntryIs(data, qs[|ps|])
        && forall i | 0 <= i < |ps| :: Separate(qs[i], qs[|ps|])
  {
    hide ParsePartition, EntryIs, Separate, Clash, NonZero, ZeroGuid;
    ZeroIff(data[..16]);
    if NonZero(data[..16]) {
      var r := ParsePartition(data, index);
      if r.Ok? {
        PartitionIff(data, index, r.value);
        AdmitIff(ps, r.value, h, qs);
        forall i | 0 <= i < |ps|
          ensures Clash(r.value, ps[i]) <==> !Separate(ps[i], r.value)
        {
          SeparateIff(r.value, ps[i]);
        }
      }
      if |qs| == |ps| + 1 {
        PartitionIff(data, index, qs[|ps|]);
        assert qs[..|ps|] == ps ==> qs == ps + [qs[|ps|]];
      }
    }
  }

  /** The entries parse to `ps` exactly when they list `ps`. */
  lemma {:induction false} ListsIff(bytes: seq<u8>, h: Header, n: nat, ps: seq<Partition>)
    requires h.entrySize >= 128 && n * h.entrySize <= |bytes|
    ensures ParseEntries(bytes, h, n) == Ok(ps) <==> Lists(bytes, h, n, ps)
  {
    hide TakeEntry, Lists, EntryIs, Separate, Usable, NonZero;
    if n == 0 {
      NothingListed(bytes, h, ps);
    } else {
      EntryEnd(n - 1, h.entrySize);
      var data := Slot(bytes, h, n - 1);
      var r := ParseEntries(bytes, h, n - 1);
      if r.Ok? {
        ListsIff(bytes, h, n - 1, r.value);
        TakeIff(r.value, data, n, h, ps);
      }
      if Used(bytes, h, n, n - 1) {
        ListsTake(bytes, h, n, ps);
        if |ps| > 0 {
          ListsIff(bytes, h, n - 1, ps[..|ps| - 1]);
        }
      } else {
        ListsSkip(bytes, h, n, ps);
        ListsIff(bytes, h, n - 1, ps);
      }
    }
  }

  lemma NothingListed(bytes: seq<u8>, h: Header, ps: seq<Partition>)
    requires h.entrySize >= 128
    ensures Lists(bytes, h, 0, ps) <==> ps == []
  {
    if ps != [] {
      assert !Taken(bytes, h, 0, ps[0]);
    }
  }

  // ---- the disk --------------------------------------------------------------------

  /** Byte `k` counted from the start of block `lba`. */
  function ByteFrom(disk: Sectors, size: nat, lba: nat, k: nat): u8
    requires size > 0 && Sized(disk, size) && lba + k / size < |disk|
  {
    disk[lba + k / size][k % size]
  }

  /** `n` bytes from the start of block `lba` on. */
  function Raw(disk: Sectors, size: nat, lba: nat, n: nat): (r: seq<u8>)
    requires size > 0 && Sized(disk, size) && lba <= |disk| && n <= (|disk| - lba) * size
    ensures |r| == n
  {
    seq(n, k requires 0 <= k < n => InBlocks(k, size, |disk| - lba); ByteFrom(disk, size, lba, k))
  }

  lemma InBlocks(k: nat, size: nat, blocks: nat)
    requires size > 0 && k < blocks * size
    ensures k / size < blocks
  {
    if k / size >= blocks {
      MulMono(blocks, k / size, size);
    }
  }

  lemma FlatAt(s: Sectors, size: nat, k: nat)
    requires size > 0 && Sized(s, size) && k < |s| * size
    ensures |Flat(s)| == |s| * size && k / size < |s| && Flat(s)[k] == s[k / size][k % size]
  {
    hide Flat;
    InBlocks(k, size, |s|);
    FlatLen(s, size);
    FlatSlice(s, size, k / size, k % size, 1);
    assert k / size * size + k % size == k;
    assert Flat(s)[k..k + 1][0] == Flat(s)[k];
    assert s[k / size][k % size..k % size + 1][0] == s[k / size][k % size];
  }

  lemma LaidOutFits(h: Header, size: nat, blocks: nat)
    requires size > 0 && LaidOut(h, size, blocks)
    ensures h.entriesLba + EntryBlocks(h, size) <= blocks
    ensures h.entryCount * h.entrySize <= (blocks - h.entriesLba) * size
  {
    hide CeilDiv, NonZero;
    CeilAtMost(h.entryCount * h.entrySize, size, h.firstUsable - h.entriesLba);
    MulMono(h.firstUsable - h.entriesLba, blocks - h.entriesLba, size);
  }

  lemma EntryBytesAre(disk: Sectors, h: Header, size: nat)
    requires size > 0 && Sized(disk, size) && h.entriesLba + EntryBlocks(h, size) <= |disk|
    requires h.entryCount * h.entrySize <= (|disk| - h.entriesLba) * size
    ensures EntryBytes(disk, h, size) == Raw(disk, size, h.entriesLba, h.entryCount * h.entrySize)
  {
    hide EntryBytes, Raw, CeilDiv;
    forall k: nat | k < h.entryCount * h.entrySize
      ensures EntryBytes(disk, h, size)[k] == Raw(disk, size, h.entriesLba, h.entryCount * h.entrySize)[k]
    {
      EntryByte(disk, h, size, k);
    }
  }

  lemma EntryByte(disk: Sectors, h: Header, size: nat, k: nat)
    requires size > 0 && Sized(disk, size) && h.entriesLba + EntryBlocks(h, size) <= |disk|
    requires k < h.entryCount * h.entrySize <= (|disk| - h.entriesLba) * size
    ensures EntryBytes(disk, h, size)[k] == Raw(disk, size, h.entriesLba, h.entryCount * h.entrySize)[k]
  {
    hide Flat, CeilDiv, Raw;
    CeilCovers(h.entryCount * h.entrySize, size);
    PrefixByte(disk, size, h.entriesLba, EntryBlocks(h, size), h.entryCount * h.entrySize, k);
  }

  lemma PrefixByte(disk: Sectors, size: nat, lba: nat, count: nat, n: nat, k: nat)
    requires size > 0 && Sized(disk, size) && lba + count <= |disk| && k < n <= (|disk| - lba) * size
    requires n <= count * size
    ensures |Flat(disk[lba..lba + count])| == count * size
    ensures Flat(disk[lba..lba + count])[..n][k] == Raw(disk, size, lba, n)[k]
  {
    hide Flat, Raw;
    var region := disk[lba..lba + count];
    FlatAt(region, size, k);
    RawAt(disk, size, lba, n, k);
    assert region[k / size] == disk[lba + k / size];
  }

  lemma RawAt(disk: Sectors, size: nat, lba: nat, n: nat, k: nat)
    requires size > 0 && Sized(disk, size) && lba <= |disk| && k < n <= (|disk| - lba) * size
    ensures lba + k / size < |disk| && Raw(disk, size, lba, n)[k] == disk[lba + k / size][k % size]
  {
    InBlocks(k, size, |disk| - lba);
  }

  /** The disk holds table `t` behind header `h`: the entries carry the checksum
      the header gives, and list exactly the partitions of `t`. */
  ghost predicate TableIs(disk: Sectors, size: nat, h: Header, t: Table)
    requires size > 0 && Sized(disk, size) && LaidOut(h, size, |disk|)
  {
    LaidOutFits(h, size, |disk|);
    var bytes := Raw(disk, size, h.entriesLba, h.entryCount * h.entrySize);
    && t.diskGuid == h.diskGuid && t.firstUsable == h.firstUsable && t.lastUsable == h.lastUsable
    && Crc.Crc32(bytes) == h.entriesCrc && Lists(bytes, h, h.entryCount, t.partitions)
  }

  /** A disk that reads as `t`. */
  ghost predicate Holds(disk: Sectors, size: nat, t: Table)
    requires size > 0 && Sized(disk, size)
  {
    && DeviceIs(size, |disk|)
    && exists h: Header :: HeaderIs(disk[1], size, |disk|, h) && TableIs(disk, size, h, t)
  }

  lemma EntriesIff(disk: Sectors, size: nat, h: Header, t: Table)
    requires size > 0 && Sized(disk, size) && LaidOut(h, size, |disk|)
    ensures h.entriesLba + EntryBlocks(h, size) <= |disk|
    ensures ReadEntries(disk, h, size) == Ok(t) <==> TableIs(disk, size, h, t)
  {
    hide ParseEntries, Lists, Raw, EntryBytes, CeilDiv, NonZero;
    LaidOutFits(h, size, |disk|);
    EntryBytesAre(disk, h, size);
    var bytes := EntryBytes(disk, h, size);
    ListsIff(bytes, h, h.entryCount, t.partitions);
  }

  /** For every disk: it reads as `t` exactly when its bytes hold `t`. */
  lemma ReadIff(disk: Sectors, size: nat, t: Table)
    requires size > 0 && Sized(disk, size) && |disk| < 0x1_0000_0000_0000_0000
    ensures ReadTable(disk, size) == Ok(t) <==> Holds(disk, size, t)
  {
    hide CheckDevice, ParseHeader, ReadEntries, HeaderIs, TableIs, LaidOut;
    DeviceIff(size, |disk|);
    if DeviceIs(size, |disk|) {
      var r := ParseHeader(disk[1], size, |disk|);
      forall h: Header
        ensures r == Ok(h) <==> HeaderIs(disk[1], size, |disk|, h)
        ensures HeaderIs(disk[1], size, |disk|, h) ==> LaidOut(h, size, |disk|)
      {
        HeaderIff(disk[1], size, |disk|, h);
        HeaderLaidOut(disk[1], size, |disk|, h);
      }
      if r.Ok? {
        EntriesIff(disk, size, r.value, t);
      }
    }
  }

  lemma HeaderLaidOut(data: seq<u8>, size: nat, blocks: nat, h: Header)
    ensures HeaderIs(data, size, blocks, h) ==> LaidOut(h, size, blocks)
  {
    hide LaidOut, LE, SealedAs;
  }

  /** A disk holds at most one table. */
  lemma HoldsOne(disk: Sectors, size: nat, t: Table, u: Table)
    requires size > 0 && Sized(disk, size) && |disk| < 0x1_0000_0000_0000_0000
    requires Holds(disk, size, t) && Holds(disk, size, u)
    ensures t == u
  {
    hide ReadTable, Holds;
    ReadIff(disk, size, t);
    ReadIff(disk, size, u);
  }
}
