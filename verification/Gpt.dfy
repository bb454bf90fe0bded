/** Writing and reading a GUID partition table on a device. */
module Gpt {
  import opened Bytes
  import opened Blocks
  import opened FsFormat
  import opened GptFormat
  import opened GptAccept
  import Crc

  // ---- block sizes -----------------------------------------------------------------

  /** Blocks hold whole entries, and whole blocks hold the table. */
  lemma BlockShape(size: nat)
    requires GoodBlockSize(size)
    ensures size / ENTRY_SIZE > 0 && size % ENTRY_SIZE == 0 && size / ENTRY_SIZE * ENTRY_SIZE == size
    ensures ENTRY_COUNT / (size / ENTRY_SIZE) == TableBlocks(size) >= 4
    ensures TableBlocks(size) * (size / ENTRY_SIZE) == ENTRY_COUNT
    ensures TableBlocks(size) * size == ENTRY_COUNT * ENTRY_SIZE
  {
    SmallPowers(size);
    Shapes();
  }

  /** A table entry never straddles two blocks. */
  lemma EntriesDivide(size: nat, entry: nat)
    requires GoodBlockSize(size) && PowerOfTwo(entry) && ENTRY_SIZE <= entry <= size
    ensures size / entry * entry == size && size / entry >= 1
  {
    hide PowerOfTwo;
    SmallPowers(size);
    SmallPowers(entry);
    if entry == 128 {
    } else if entry == 256 {
    } else if entry == 512 {
    } else if entry == 1024 {
    } else if entry == 2048 {
    } else {
      assert entry == 4096;
    }
  }

  // ---- encoding --------------------------------------------------------------------

  method ReadName(data: seq<u8>) returns (name: seq<u8>)
    requires |data| == 72
    ensures name == NameFrom(data, 0)
  {
    hide Code, Shown;
    name := [];
    var k := 0;
    while k < NAME_UNITS
      invariant k <= NAME_UNITS && NameFrom(data, 0) == name + NameFrom(data, k)
      decreases NAME_UNITS - k
    {
      var code := Code(data, k);
      if code == 0 {
        break;
      }
      name := name + [Shown(code)];
      k := k + 1;
    }
    assert NameFrom(data, k) == [];
  }

  method EncodePartition(s: Spec) returns (data: seq<u8>)
    ensures data == EncodeEntry(s)
  {
    hide LE;
    var units := [];
    var k := 0;
    while k < |s.name| && k < NAME_UNITS
      invariant k <= |s.name| && k <= NAME_UNITS && units == Units(s.name[..k])
    {
      assert s.name[..k + 1][..k] == s.name[..k];
      units := units + LE(s.name[k], 2);
      k := k + 1;
    }
    assert s.name[..k] == Clip(s.name);
    var name := units + Zeros(72 - |units|);
    data := s.typeGuid + (s.uniqueGuid + (LE(s.first, 8) + (LE(s.last, 8) + (LE(s.attributes, 8) + name))));
  }

  /** One block of the entry table. */
  method EntriesBlock(specs: seq<Spec>, size: nat, k: nat) returns (block: seq<u8>)
    requires size % ENTRY_SIZE == 0
    ensures block == EntryRun(specs, k * (size / ENTRY_SIZE), size / ENTRY_SIZE) && |block| == size
  {
    hide EncodeEntry;
    var per := size / ENTRY_SIZE;
    block := [];
    for slot := 0 to per
      invariant block == EntryRun(specs, k * per, slot)
    {
      var index := k * per + slot;
      if index < |specs| {
        var entry := EncodePartition(specs[index]);
        block := block + entry;
      } else {
        block := block + Zeros(ENTRY_SIZE);
      }
    }
  }

  lemma NextRun(specs: seq<Spec>, k: nat, per: nat)
    ensures EntryRun(specs, 0, (k + 1) * per) == EntryRun(specs, 0, k * per) + EntryRun(specs, k * per, per)
  {
    hide EntryRun;
    MulNext(k, per);
    EntryRunConcat(specs, 0, k * per, per);
  }

  method EntriesCrc(specs: seq<Spec>, size: nat) returns (crc: u32)
    requires GoodBlockSize(size)
    ensures crc == Crc.Crc32(EntryRun(specs, 0, ENTRY_COUNT))
  {
    hide EntryRun, GoodBlockSize, TableBlocks;
    BlockShape(size);
    var stream := new Crc.Stream();
    var per := size / ENTRY_SIZE;
    assert EntryRun(specs, 0, 0 * per) == [] by { NoRun(specs, 0); }
    for k := 0 to ENTRY_COUNT / per
      invariant stream.Valid() && stream.fed == EntryRun(specs, 0, k * per)
    {
      var block := EntriesBlock(specs, size, k);
      NextRun(specs, k, per);
      stream.Feed(block);
    }
    crc := stream.Finish();
  }

  lemma NoRun(specs: seq<Spec>, from: nat)
    ensures EntryRun(specs, from, 0) == []
  {
  }

  // ---- checking a request ------------------------------------------------------------

  method ValidateSpecs(specs: seq<Spec>, first: nat, last: nat) returns (ok: bool)
    ensures ok <==> SpecsOk(specs, first, last)
  {
    for i := 0 to |specs|
      invariant SpecsOk(specs[..i], first, last)
    {
      var s := specs[i];
      if ZeroGuid(s.typeGuid) || ZeroGuid(s.uniqueGuid) || s.first < first || s.first > s.last || s.last > last {
        assert !SpecOk(specs[i], first, last);
        return false;
      }
      for j := 0 to i
        invariant forall m | 0 <= m < j :: !SpecsClash(specs[i], specs[m])
      {
        if s.uniqueGuid == specs[j].uniqueGuid || (s.first <= specs[j].last && specs[j].first <= s.last) {
          assert SpecsClash(specs[i], specs[j]);
          return false;
        }
      }
      SpecsSnoc(specs, i, first, last);
    }
    assert specs[..|specs|] == specs;
    return true;
  }

  lemma SpecsSnoc(specs: seq<Spec>, i: nat, first: nat, last: nat)
    requires i < |specs| && SpecsOk(specs[..i], first, last) && SpecOk(specs[i], first, last)
    requires forall m | 0 <= m < i :: !SpecsClash(specs[i], specs[m])
    ensures SpecsOk(specs[..i + 1], first, last)
  {
    hide SpecOk, SpecsClash;
    var s := specs[..i + 1];
    forall a | 0 <= a < |s|
      ensures SpecOk(s[a], first, last)
    {
      assert a < i ==> s[a] == specs[..i][a];
    }
    forall a, b | 0 <= b < a < |s|
      ensures !SpecsClash(s[a], s[b])
    {
      assert a < i ==> s[a] == specs[..i][a] && s[b] == specs[..i][b];
    }
  }

  // ---- writing ---------------------------------------------------------------------

  datatype Layout = Layout(firstUsable: nat, lastUsable: nat, backupEntries: nat, backupHeader: nat)

  function LayoutOf(size: nat, blocks: nat): Layout
    requires CheckDevice(size, blocks).Ok?
  {
    var table := TableBlocks(size);
    Layout(2 + table, blocks - 2 - table, blocks - 1 - table, blocks - 1)
  }

  function Primary(l: Layout, guid: Guid, crc: u32): Header {
    Header(1, l.backupHeader, l.firstUsable, l.lastUsable, guid, 2, ENTRY_COUNT, ENTRY_SIZE, crc)
  }

  function Backup(l: Layout, guid: Guid, crc: u32): Header {
    Header(l.backupHeader, 1, l.firstUsable, l.lastUsable, guid, l.backupEntries, ENTRY_COUNT, ENTRY_SIZE, crc)
  }

  function ProtectiveMbr(size: nat, blocks: nat): (b: seq<u8>)
    requires size >= 512 && blocks > 0
    ensures |b| == size
  {
    Zeros(450) + [0xee] + Zeros(3) + LE(1, 4) + LE(Min(blocks - 1, 0xffff_ffff), 4)
    + Zeros(48) + [0x55, 0xaa] + Zeros(size - 512)
  }

  /** Why a request is refused before anything is written. */
  ghost function Refusal(size: nat, blocks: nat, readonly: bool, guid: Guid, specs: seq<Spec>): Option<Error> {
    match CheckDevice(size, blocks)
    case Err(e) => Some(e)
    case Ok(_) =>
      var l := LayoutOf(size, blocks);
      if readonly then Some(Io)
      else if |specs| > ENTRY_COUNT then Some(TooManyEntries)
      else if ZeroGuid(guid) then Some(InvalidHeader)
      else if l.firstUsable > l.lastUsable then Some(DiskTooSmall)
      else if !SpecsOk(specs, l.firstUsable, l.lastUsable) then Some(InvalidPartition)
      else None
  }

  /** One entry table, block after block. */
  method WriteEntries(dev: Drive, lba: nat, specs: seq<Spec>) returns (ok: bool)
    requires dev.Valid() && GoodBlockSize(dev.size)
    modifies dev
    ensures dev.Valid() && Same(old(dev.blocks), dev.blocks, lba, lba + TableBlocks(dev.size))
    ensures dev.faults >= old(dev.faults) && (ok ==> dev.faults == old(dev.faults))
    ensures ok <== dev.faults == old(dev.faults) && lba + TableBlocks(dev.size) <= |dev.blocks|
    ensures ok ==> lba + TableBlocks(dev.size) <= |dev.blocks|
    ensures ok ==> Flat(dev.blocks[lba..lba + TableBlocks(dev.size)]) == EntryRun(specs, 0, ENTRY_COUNT)
  {
    hide EntryRun, Flat, GoodBlockSize, TableBlocks;
    BlockShape(dev.size);
    var per := dev.size / ENTRY_SIZE;
    var count := ENTRY_COUNT / per;
    if lba + count > |dev.blocks| {
      return false;
    }
    assert Flat(dev.blocks[lba..lba]) == EntryRun(specs, 0, 0 * per) by {
      NoRun(specs, 0);
      NoBlocks(dev.blocks[lba..lba]);
    }
    for k := 0 to count
      invariant dev.Valid() && Same(old(dev.blocks), dev.blocks, lba, lba + count) && dev.faults == old(dev.faults)
      invariant Flat(dev.blocks[lba..lba + k]) == EntryRun(specs, 0, k * per)
    {
      ghost var before := dev.blocks;
      var block := EntriesBlock(specs, dev.size, k);
      ok := dev.Write(lba + k, [block]);
      if !ok {
        return;
      }
      NextRun(specs, k, per);
      NextFlat(before, dev.blocks, lba, k, block);
    }
    return true;
  }

  lemma NoBlocks(s: Sectors)
    requires s == []
    ensures Flat(s) == []
  {
  }

  lemma NextFlat(before: Sectors, after: Sectors, lba: nat, k: nat, block: seq<u8>)
    requires Same(before, after, lba + k, lba + k + 1) && lba + k + 1 <= |after|
    requires after[lba + k..lba + k + 1] == [block]
    ensures Flat(after[lba..lba + k + 1]) == Flat(before[lba..lba + k]) + block
  {
    hide Flat;
    assert after[lba..lba + k] == before[lba..lba + k];
    assert after[lba..lba + k + 1] == after[lba..lba + k] + after[lba + k..lba + k + 1];
    FlatConcat(before[lba..lba + k], [block]);
    FlatOne(block);
  }

  method WriteHeader(dev: Drive, h: Header) returns (ok: bool)
    requires dev.Valid() && dev.size >= 512
    modifies dev
    ensures dev.Valid() && Same(old(dev.blocks), dev.blocks, h.current, h.current + 1)
    ensures dev.faults >= old(dev.faults) && (ok ==> dev.faults == old(dev.faults))
    ensures ok <== dev.faults == old(dev.faults) && h.current < |dev.blocks|
    ensures ok ==> h.current < |dev.blocks| && dev.blocks[h.current] == HeaderBlock(h, dev.size)
  {
    hide HeaderHead, HeaderTail;
    var crc := Crc.Crc32(HeaderHead() + Zeros(4) + HeaderTail(h));
    var block := HeaderHead() + LE(crc, 4) + HeaderTail(h) + Zeros(dev.size - HEADER_SIZE);
    ok := dev.Write(h.current, [block]);
    assert ok ==> dev.blocks[h.current] == dev.blocks[h.current..h.current + 1][0];
  }

  /** What a disk holds after a successful write. */
  ghost predicate Published(disk: Sectors, size: nat, guid: Guid, specs: seq<Spec>)
    requires size > 0 && Sized(disk, size) && CheckDevice(size, |disk|).Ok?
  {
    var l := LayoutOf(size, |disk|);
    var crc := Crc.Crc32(EntryRun(specs, 0, ENTRY_COUNT));
    && disk[0] == ProtectiveMbr(size, |disk|)
    && Flat(disk[2..2 + TableBlocks(size)]) == EntryRun(specs, 0, ENTRY_COUNT)
    && Flat(disk[l.backupEntries..l.backupHeader]) == EntryRun(specs, 0, ENTRY_COUNT)
    && disk[1] == HeaderBlock(Primary(l, guid, crc), size)
    && disk[l.backupHeader] == HeaderBlock(Backup(l, guid, crc), size)
  }

  /** Protective MBR, both entry tables, both headers, in that order; nothing
      between the first and the last usable block is touched. */
  method Write(dev: Drive, guid: Guid, specs: seq<Spec>) returns (r: Result<()>)
    requires dev.Valid()
    modifies dev
    ensures dev.Valid() && |dev.blocks| == old(|dev.blocks|)
    ensures var refusal := Refusal(dev.size, |dev.blocks|, dev.readonly, guid, specs);
      && (refusal.Some? ==> r == Err(refusal.value) && dev.blocks == old(dev.blocks))
      && (refusal.None? ==> r.Ok? || (r == Err(Io) && dev.faults > old(dev.faults)))
      && dev.faults >= old(dev.faults) && (r.Ok? ==> dev.faults == old(dev.faults))
      && (refusal.None? ==>
            var l := LayoutOf(dev.size, |dev.blocks|);
            forall i | l.firstUsable <= i <= l.lastUsable :: dev.blocks[i] == old(dev.blocks)[i])
    ensures r.Ok? ==> Published(dev.blocks, dev.size, guid, specs)
  {
    hide EntryRun, Flat, HeaderBlock, ProtectiveMbr, ZeroGuid, SpecsOk, GoodBlockSize, TableBlocks;
    var check := CheckDevice(dev.size, |dev.blocks|);
    if check.Err? {
      return Err(check.error);
    }
    if dev.readonly {
      return Err(Io);
    }
    if |specs| > ENTRY_COUNT {
      return Err(TooManyEntries);
    }
    if ZeroGuid(guid) {
      return Err(InvalidHeader);
    }
    var l := LayoutOf(dev.size, |dev.blocks|);
    if l.firstUsable > l.lastUsable {
      return Err(DiskTooSmall);
    }
    var valid := ValidateSpecs(specs, l.firstUsable, l.lastUsable);
    if !valid {
      return Err(InvalidPartition);
    }
    r := WriteAll(dev, guid, specs, l);
  }

  method WriteAll(dev: Drive, guid: Guid, specs: seq<Spec>, l: Layout) returns (r: Result<()>)
    requires dev.Valid() && CheckDevice(dev.size, |dev.blocks|).Ok? && l == LayoutOf(dev.size, |dev.blocks|)
    requires l.firstUsable <= l.lastUsable
    modifies dev
    ensures dev.Valid() && |dev.blocks| == old(|dev.blocks|)
    ensures if r.Ok? then dev.faults == old(dev.faults) else r == Err(Io) && dev.faults > old(dev.faults)
    ensures forall i | l.firstUsable <= i <= l.lastUsable :: dev.blocks[i] == old(dev.blocks)[i]
    ensures r.Ok? ==> Published(dev.blocks, dev.size, guid, specs)
  {
    hide EntryRun, Flat, HeaderBlock, ProtectiveMbr, SpecsOk, TableBlocks, PowerOfTwo;
    var crc := EntriesCrc(specs, dev.size);
    var ok := dev.Write(0, [ProtectiveMbr(dev.size, |dev.blocks|)]);
    if !ok {
      return Err(Io);
    }
    assert dev.blocks[0] == dev.blocks[0..0 + 1][0];
    ok := WriteEntries(dev, 2, specs);
    if !ok {
      return Err(Io);
    }
    ghost var first := dev.blocks;
    ok := WriteEntries(dev, l.backupEntries, specs);
    if !ok {
      return Err(Io);
    }
    ghost var second := dev.blocks;
    ok := WriteHeader(dev, Primary(l, guid, crc));
    if !ok {
      return Err(Io);
    }
    ok := WriteHeader(dev, Backup(l, guid, crc));
    if !ok {
      return Err(Io);
    }
    assert dev.blocks[2..2 + TableBlocks(dev.size)] == first[2..2 + TableBlocks(dev.size)];
    assert dev.blocks[l.backupEntries..l.backupHeader] == second[l.backupEntries..l.backupHeader];
    return Ok(());
  }

  // ---- reading ---------------------------------------------------------------------

  method AdmitPartition(ps: seq<Partition>, p: Partition, h: Header) returns (r: Result<seq<Partition>>)
    ensures r == Admit(ps, p, h)
  {
    if p.first < h.firstUsable || p.last > h.lastUsable {
      return Err(InvalidPartition);
    }
    if |ps| >= MAX_PARTITIONS {
      return Err(TooManyEntries);
    }
    for i := 0 to |ps|
      invariant forall j | 0 <= j < i :: !Clash(p, ps[j])
    {
      if p.uniqueGuid == ps[i].uniqueGuid || (p.first <= ps[i].last && ps[i].first <= p.last) {
        assert Clash(p, ps[i]);
        return Err(InvalidPartition);
      }
    }
    return Ok(ps + [p]);
  }

  method ReadEntry(ps: seq<Partition>, data: seq<u8>, index: nat, h: Header) returns (r: Result<seq<Partition>>)
    requires |data| >= ENTRY_SIZE
    ensures r == TakeEntry(ps, data, index, h)
  {
    hide NameFrom, Field, Admit, ZeroGuid;
    if ZeroGuid(data[..16]) {
      return Ok(ps);
    }
    var first, last := Field(data, 32, 8), Field(data, 40, 8);
    if first == 0 || first > last || ZeroGuid(data[16..32]) {
      return Err(InvalidPartition);
    }
    var name := ReadName(data[56..128]);
    r := AdmitPartition(ps, Partition(index, data[..16], data[16..32], first, last, Field(data, 48, 8), name), h);
  }

  lemma {:induction false} ErrorsStay(bytes: seq<u8>, h: Header, n: nat, m: nat)
    requires h.entrySize >= ENTRY_SIZE && n <= m && m * h.entrySize <= |bytes| && n * h.entrySize <= |bytes|
    requires ParseEntries(bytes, h, n).Err?
    ensures ParseEntries(bytes, h, m) == ParseEntries(bytes, h, n)
    decreases m
  {
    hide TakeEntry;
    if n < m {
      EntryEnd(m - 1, h.entrySize);
      ErrorsStay(bytes, h, n, m - 1);
    }
  }

  /** The share of a table of `count` entries that block `k` holds. */
  lemma BlockShare(count: nat, entry: nat, size: nat, k: nat)
    requires entry > 0 && size > 0 && size / entry * entry == size && k < CeilDiv(count * entry, size)
    ensures k * size < count * entry
    ensures var per := size / entry;
      && k * per < count && k * size == k * per * entry
      && Min(count * entry - k * size, size) == Min(count - k * per, per) * entry
      && Min(count * entry - k * size, size) / entry == Min(count - k * per, per)
  {
    var per := size / entry;
    var total := count * entry;
    MulNext(k, size);
    Below(total, size, k);
    assert k * size == k * per * entry by { assert k * (per * entry) == k * per * entry; }
    assert (count - k * per) * entry == total - k * size;
    if k * per >= count {
      MulMono(0, k * per - count, entry);
    }
    var m := Min(count - k * per, per);
    if count - k * per < per {
      MulMono(count - k * per, per, entry);
    } else {
      MulMono(per, count - k * per, entry);
    }
    DivModUnique(m * entry, entry, m, 0);
  }

  /** What block `k` contributes to the table. */
  lemma BlockBytes(disk: Sectors, h: Header, size: nat, k: nat, here: nat)
    requires size > 0 && Sized(disk, size) && h.entriesLba + EntryBlocks(h, size) <= |disk| && k < EntryBlocks(h, size)
    requires here <= size && k * size + here <= h.entryCount * h.entrySize
    ensures var bytes := EntryBytes(disk, h, size);
      && bytes[k * size..k * size + here] == disk[h.entriesLba + k][..here]
      && bytes[..k * size + here] == bytes[..k * size] + disk[h.entriesLba + k][..here]
  {
    hide Flat;
    var region := disk[h.entriesLba..h.entriesLba + EntryBlocks(h, size)];
    FlatSlice(region, size, k, 0, here);
    assert region[k] == disk[h.entriesLba + k] && region[k][0..here] == region[k][..here];
    PrefixSlices(Flat(region), h.entryCount * h.entrySize, k * size, here);
  }

  lemma PrefixSlices(s: seq<u8>, total: nat, at: nat, len: nat)
    requires total <= |s| && at + len <= total
    ensures s[..total][at..at + len] == s[at..at + len]
    ensures s[..total][..at + len] == s[..total][..at] + s[at..at + len]
  {
  }

  /** The entries of one block, in order. */
  method ReadBlock(ps: seq<Partition>, data: seq<u8>, index: nat, n: nat, h: Header, ghost bytes: seq<u8>)
    returns (r: Result<seq<Partition>>)
    requires h.entrySize >= ENTRY_SIZE && n * h.entrySize <= |data|
    requires index * h.entrySize <= index * h.entrySize + n * h.entrySize == (index + n) * h.entrySize <= |bytes|
    requires data[..n * h.entrySize] == bytes[index * h.entrySize..(index + n) * h.entrySize]
    requires ParseEntries(bytes, h, index) == Ok(ps)
    ensures r == ParseEntries(bytes, h, index + n)
  {
    hide TakeEntry, ParseEntries;
    var entry := h.entrySize;
    r := Ok(ps);
    for slot := 0 to n
      invariant (index + slot) * entry <= |bytes| && r.Ok? && r == ParseEntries(bytes, h, index + slot)
    {
      SlotInside(index, n, slot, entry);
      ParseNext(bytes, h, index + slot, r.value);
      SameSlot(data, bytes, index * entry, n * entry, slot * entry, entry);
      r := ReadEntry(r.value, data[slot * entry..slot * entry + entry], index + slot + 1, h);
      if r.Err? {
        ErrorsStay(bytes, h, index + slot + 1, index + n);
        return;
      }
    }
  }

  lemma ParseNext(bytes: seq<u8>, h: Header, n: nat, ps: seq<Partition>)
    requires h.entrySize >= ENTRY_SIZE && n * h.entrySize + h.entrySize <= |bytes|
    requires ParseEntries(bytes, h, n) == Ok(ps)
    ensures (n + 1) * h.entrySize <= |bytes|
    ensures ParseEntries(bytes, h, n + 1) ==
      TakeEntry(ps, bytes[n * h.entrySize..n * h.entrySize + h.entrySize], n + 1, h)
  {
    hide TakeEntry;
    EntryEnd(n, h.entrySize);
  }

  lemma SlotInside(index: nat, n: nat, slot: nat, entry: nat)
    requires slot < n
    ensures slot * entry + entry <= n * entry && (index + slot) * entry == index * entry + slot * entry
    ensures (index + slot) * entry + entry <= (index + n) * entry == index * entry + n * entry
  {
    MulMono(slot + 1, n, entry);
  }

  lemma SameSlot(data: seq<u8>, bytes: seq<u8>, at: nat, len: nat, off: nat, entry: nat)
    requires len <= |data| && at + len <= |bytes| && data[..len] == bytes[at..at + len] && off + entry <= len
    ensures data[off..off + entry] == bytes[at + off..at + off + entry]
  {
    assert data[..len][off..off + entry] == data[off..off + entry];
    SliceSlice(bytes, at, at + len, off, off + entry);
  }

  /** `fed` bytes have gone into the checksum and `n` entries are parsed. */
  ghost predicate ReadUpTo(bytes: seq<u8>, h: Header, n: nat, fed: seq<u8>, parts: seq<Partition>) {
    && fed <= bytes && |fed| == n * h.entrySize <= |bytes|
    && h.entrySize >= ENTRY_SIZE && ParseEntries(bytes, h, n) == Ok(parts)
  }

  /** One more block of the table, holding `n` entries. */
  method ReadTableBlock(dev: Drive, h: Header, k: nat, index: nat, n: nat, crc: Crc.Stream, parts: seq<Partition>)
    returns (r: Result<seq<Partition>>)
    requires dev.Valid() && h.entriesLba + EntryBlocks(h, dev.size) <= |dev.blocks| && k < EntryBlocks(h, dev.size)
    requires k * dev.size == index * h.entrySize && n * h.entrySize <= dev.size && index + n <= h.entryCount
    requires crc.Valid() && ReadUpTo(EntryBytes(dev.blocks, h, dev.size), h, index, crc.fed, parts)
    modifies crc, dev`faults
    ensures crc.Valid() && dev.faults >= old(dev.faults)
    ensures r.Ok? ==> ReadUpTo(EntryBytes(dev.blocks, h, dev.size), h, index + n, crc.fed, r.value)
    ensures r.Ok? ==> dev.faults == old(dev.faults)
    ensures r.Err? ==>
      (r.error == Io && dev.faults > old(dev.faults))
      || ParseEntries(EntryBytes(dev.blocks, h, dev.size), h, h.entryCount) == Err(r.error)
  {
    hide ParseEntries, EntryBytes, CeilDiv, Crc.Update;
    var entry := h.entrySize;
    ghost var bytes := EntryBytes(dev.blocks, h, dev.size);
    var block := dev.Read(h.entriesLba + k, 1);
    if block.None? {
      return Err(Io);
    }
    Distribute(index, n, h.entryCount, entry);
    BlockBytes(dev.blocks, h, dev.size, k, n * entry);
    var data := block.value[0];
    crc.Feed(data[..n * entry]);
    r := ReadBlock(parts, data, index, n, h, bytes);
    if r.Err? {
      ErrorsStay(bytes, h, index + n, h.entryCount);
    }
  }

  lemma Distribute(a: nat, b: nat, c: nat, d: nat)
    requires a + b <= c
    ensures (a + b) * d == a * d + b * d <= c * d
  {
    MulMono(a + b, c, d);
  }

  /** Entries are parsed block by block while the checksum runs along. */
  method ReadEntriesOf(dev: Drive, h: Header) returns (r: Result<Table>)
    requires dev.Valid() && GoodBlockSize(dev.size) && h.entriesLba + EntryBlocks(h, dev.size) <= |dev.blocks|
    requires PowerOfTwo(h.entrySize) && ENTRY_SIZE <= h.entrySize <= dev.size
    modifies dev`faults
    ensures r == ReadEntries(dev.blocks, h, dev.size) || (r == Err(Io) && dev.faults > old(dev.faults))
    ensures dev.faults >= old(dev.faults) && (r.Ok? ==> dev.faults == old(dev.faults))
    ensures LaidOut(h, dev.size, |dev.blocks|) ==>
      if r.Ok? then TableIs(dev.blocks, dev.size, h, r.value)
      else (forall t: Table :: !TableIs(dev.blocks, dev.size, h, t)) || dev.faults > old(dev.faults)
  {
    hide PowerOfTwo, GoodBlockSize, ParseEntries, EntryBytes, CeilDiv, Crc.Update, LaidOut, TableIs;
    EntriesAre(dev.blocks, dev.size, h);
    var total, per := h.entryCount * h.entrySize, dev.size / h.entrySize;
    EntriesDivide(dev.size, h.entrySize);
    ghost var bytes := EntryBytes(dev.blocks, h, dev.size);
    var crc := new Crc.Stream();
    var parts: seq<Partition> := [];
    var index := 0;
    NoEntries(bytes, h);
    for k := 0 to EntryBlocks(h, dev.size)
      invariant index == Min(k * per, h.entryCount)
      invariant crc.Valid() && ReadUpTo(bytes, h, index, crc.fed, parts) && dev.faults == old(dev.faults)
    {
      BlockShare(h.entryCount, h.entrySize, dev.size, k);
      NextIndex(h.entryCount, per, k);
      var n := Min(total - k * dev.size, dev.size) / h.entrySize;
      var next := ReadTableBlock(dev, h, k, index, n, crc, parts);
      if next.Err? {
        return Err(next.error);
      }
      parts, index := next.value, index + n;
    }
    AllRead(h.entryCount, h.entrySize, dev.size);
    assert crc.fed == bytes;
    var sum := crc.Finish();
    if sum != h.entriesCrc {
      return Err(InvalidTableCrc);
    }
    return Ok(Table(h.diskGuid, h.firstUsable, h.lastUsable, parts));
  }

  lemma EntriesAre(disk: Sectors, size: nat, h: Header)
    requires size > 0 && Sized(disk, size) && h.entriesLba + EntryBlocks(h, size) <= |disk| && h.entrySize >= ENTRY_SIZE
    ensures LaidOut(h, size, |disk|) ==>
      forall t: Table :: ReadEntries(disk, h, size) == Ok(t) <==> TableIs(disk, size, h, t)
  {
    hide ReadEntries, TableIs, LaidOut, CeilDiv;
    if LaidOut(h, size, |disk|) {
      forall t: Table {
        EntriesIff(disk, size, h, t);
      }
    }
  }

  lemma NoEntries(bytes: seq<u8>, h: Header)
    requires h.entrySize >= ENTRY_SIZE
    ensures ParseEntries(bytes, h, 0) == Ok([])
  {
  }

  lemma NextIndex(count: nat, per: nat, k: nat)
    requires k * per < count
    ensures Min(k * per, count) == k * per
    ensures Min((k + 1) * per, count) == k * per + Min(count - k * per, per) <= count
  {
    MulNext(k, per);
  }

  lemma AllRead(count: nat, entry: nat, size: nat)
    requires entry > 0 && size > 0 && size / entry * entry == size
    ensures Min(CeilDiv(count * entry, size) * (size / entry), count) == count
  {
    var n, per := CeilDiv(count * entry, size), size / entry;
    CeilCovers(count * entry, size);
    assert n * size == n * per * entry by { assert n * (per * entry) == n * per * entry; }
    if n * per < count {
      MulMono(n * per + 1, count, entry);
      MulNext(n * per, entry);
    }
  }

  /** Reading gives the table the disk holds, fails if it holds none, or the
      device failed. */
  method Read(dev: Drive) returns (r: Result<Table>)
    requires dev.Valid()
    modifies dev`faults
    ensures r == ReadTable(dev.blocks, dev.size) || (r == Err(Io) && dev.faults > old(dev.faults))
    ensures r.Ok? ==> Holds(dev.blocks, dev.size, r.value)
    ensures r.Err? ==> (forall t: Table :: !Holds(dev.blocks, dev.size, t)) || dev.faults > old(dev.faults)
    ensures dev.faults >= old(dev.faults) && (r.Ok? ==> dev.faults == old(dev.faults))
  {
    hide PowerOfTwo, ReadEntries, HeaderSealed, ParseHeader, Holds;
    ReadIs(dev.blocks, dev.size);
    var check := CheckDevice(dev.size, |dev.blocks|);
    if check.Err? {
      return Err(check.error);
    }
    var block := dev.Read(1, 1);
    if block.None? {
      return Err(Io);
    }
    var header := ParseHeader(block.value[0], dev.size, |dev.blocks|);
    if header.Err? {
      return Err(header.error);
    }
    HeaderInBounds(block.value[0], dev.size, |dev.blocks|);
    r := ReadEntriesOf(dev, header.value);
  }

  lemma HeaderInBounds(data: seq<u8>, size: nat, blocks: nat)
    requires |data| == size >= 512 && blocks > 0 && ParseHeader(data, size, blocks).Ok?
    ensures var h := ParseHeader(data, size, blocks).value;
      && h.entriesLba + EntryBlocks(h, size) <= blocks && PowerOfTwo(h.entrySize) && ENTRY_SIZE <= h.entrySize <= size
  {
    hide PowerOfTwo, HeaderSealed, Field;
  }

  lemma ReadIs(disk: Sectors, size: nat)
    requires size > 0 && Sized(disk, size) && |disk| < 0x1_0000_0000_0000_0000
    ensures forall t: Table :: ReadTable(disk, size) == Ok(t) <==> Holds(disk, size, t)
  {
    hide ReadTable, Holds;
    forall t: Table {
      ReadIff(disk, size, t);
    }
  }

  // ---- round trip ------------------------------------------------------------------

  lemma PublishedIsWritten(disk: Sectors, size: nat, guid: Guid, specs: seq<Spec>)
    requires size > 0 && Sized(disk, size) && |disk| < 0x1_0000_0000_0000_0000
    requires Refusal(size, |disk|, false, guid, specs).None? && Published(disk, size, guid, specs)
    ensures var crc := Crc.Crc32(EntryRun(specs, 0, ENTRY_COUNT));
      Written(disk, Primary(LayoutOf(size, |disk|), guid, crc), specs, size)
  {
    hide EntryRun, Flat, HeaderBlock, ProtectiveMbr, SpecsOk;
    var crc := Crc.Crc32(EntryRun(specs, 0, ENTRY_COUNT));
    BlockShape(size);
    var h := Primary(LayoutOf(size, |disk|), guid, crc);
    assert EntryBlocks(h, size) == TableBlocks(size);
    assert PowerOfTwo(ENTRY_SIZE);
    var f := Flat(disk[2..2 + TableBlocks(size)]);
    assert f[..|f|] == f;
  }

  /** For every accepted layout of at most thirty-two partitions, reading a disk
      just written gives the disk identity, the usable range and exactly the
      partitions written, in order; both headers are sealed and both copies of
      the entries are the same. */
  lemma RoundTrip(disk: Sectors, size: nat, guid: Guid, specs: seq<Spec>)
    requires size > 0 && Sized(disk, size) && |disk| < 0x1_0000_0000_0000_0000
    requires Refusal(size, |disk|, false, guid, specs).None? && Published(disk, size, guid, specs)
    ensures var l := LayoutOf(size, |disk|);
      && ReadTable(disk, size) ==
           (if |specs| > MAX_PARTITIONS then Err(TooManyEntries)
            else Ok(Table(guid, l.firstUsable, l.lastUsable, Listed(specs))))
      && HeaderSealed(disk[1]) && HeaderSealed(disk[l.backupHeader])
      && Flat(disk[2..l.firstUsable]) == Flat(disk[l.backupEntries..l.backupHeader])
  {
    hide EntryRun, Flat, HeaderBlock, ProtectiveMbr, SpecsOk, Written, ReadTable, HeaderSealed, PowerOfTwo;
    var crc := Crc.Crc32(EntryRun(specs, 0, ENTRY_COUNT));
    var l := LayoutOf(size, |disk|);
    PublishedIsWritten(disk, size, guid, specs);
    ReadBack(disk, Primary(l, guid, crc), specs, size);
    BlockSealed(Primary(l, guid, crc), size);
    BlockSealed(Backup(l, guid, crc), size);
  }

  // ---- what is on the disk -----------------------------------------------------------

  /** One partition of type 0xee that starts at block 1 and spans the rest of the
      disk, as far as 32 bits count, and the boot signature; all else is zero. */
  lemma MbrBytes(size: nat, blocks: nat, i: nat)
    requires size >= 512 && blocks > 0 && i < size
    ensures var b := ProtectiveMbr(size, blocks);
      && b[454..458] == [1, 0, 0, 0]
      && b[458..462] == LE(if blocks <= 0xffff_ffff then blocks - 1 else 0xffff_ffff, 4)
      && (454 <= i < 462 || b[i] == if i == 450 then 0xee else if i == 510 then 0x55 else if i == 511 then 0xaa else 0)
  {
    One();
    hide LE;
    var span, front, back :=
      LE(Min(blocks - 1, 0xffff_ffff), 4), Zeros(450) + [0xee] + Zeros(3), Zeros(48) + [0x55, 0xaa] + Zeros(size - 512);
    var b := ProtectiveMbr(size, blocks);
    assert b == front + [1, 0, 0, 0] + span + back;
    assert b[454..458] == [1, 0, 0, 0] && b[458..462] == span;
    assert b[i] == if i < 454 then front[i] else if i < 458 then [1 as u8, 0, 0, 0][i - 454]
                   else if i < 462 then span[i - 458] else back[i - 462];
  }

  lemma One()
    ensures LE(1, 4) == [1, 0, 0, 0]
  {
  }

  /** Block `b` is the backup of header `a`: the same but for where it is, where
      the other is and where its table is, and with its own checksum. */
  predicate BackupIs(a: seq<u8>, b: seq<u8>, lba: nat, entries: nat) {
    && |a| == |b| >= 92
    && SealedAs(b, 92) && b[..12] == a[..12] && b[24..32] == LE(lba, 8) && b[32..40] == LE(1, 8)
    && b[40..72] == a[40..72] && b[72..80] == LE(entries, 8) && b[80..92] == a[80..92]
  }

  /** A written disk, block by block, its table filling `n` blocks: the protective
      MBR, the primary header with the table behind it, the usable blocks, and
      the table again before the backup header in the last block. */
  ghost predicate WrittenAs(disk: Sectors, size: nat, guid: Guid, n: nat) {
    && size > 0 && Sized(disk, size) && |disk| >= 3 + 2 * n
    && disk[0] == (if size >= 512 then ProtectiveMbr(size, |disk|) else [])
    && HeaderIs(disk[1], size, |disk|, Header(1, |disk| - 1, 2 + n, |disk| - 2 - n, guid, 2, 128, 128,
                                              Crc.Crc32(Flat(disk[2..2 + n]))))
    && BackupIs(disk[1], disk[|disk| - 1], |disk| - 1, |disk| - 1 - n)
    && Flat(disk[|disk| - 1 - n..|disk| - 1]) == Flat(disk[2..2 + n])
  }

  lemma WrittenBytes(disk: Sectors, size: nat, guid: Guid, specs: seq<Spec>, n: nat)
    requires size > 0 && Sized(disk, size) && |disk| < 0x1_0000_0000_0000_0000 && n * size == 128 * 128
    requires Refusal(size, |disk|, false, guid, specs).None? && Published(disk, size, guid, specs)
    ensures WrittenAs(disk, size, guid, n)
    ensures |specs| <= 32 ==> Holds(disk, size, Table(guid, 2 + n, |disk| - 2 - n, Listed(specs)))
  {
    hide EntryRun, Flat, ProtectiveMbr, SpecsOk, HeaderBlock, HeaderIs, ReadTable, Holds, BackupIs, PowerOfTwo,
         HeaderSealed, TableBlocks, GoodBlockSize, ZeroGuid;
    BlockShape(size);
    SameTimes(n, TableBlocks(size), size);
    var l := LayoutOf(size, |disk|);
    var crc := Crc.Crc32(EntryRun(specs, 0, ENTRY_COUNT));
    PrimaryBytes(disk, size, guid, specs);
    LayoutFits(size, |disk|, guid, crc);
    BackupBytes(l, guid, crc, size);
    RoundTrip(disk, size, guid, specs);
    if |specs| <= 32 {
      ReadIff(disk, size, Table(guid, l.firstUsable, l.lastUsable, Listed(specs)));
    }
  }

  lemma SameTimes(a: nat, b: nat, size: nat)
    requires size > 0 && a * size == b * size
    ensures a == b
  {
  }

  lemma LayoutFits(size: nat, blocks: nat, guid: Guid, crc: u32)
    requires blocks < 0x1_0000_0000_0000_0000 && CheckDevice(size, blocks).Ok?
    ensures var l := LayoutOf(size, blocks); Fits(Primary(l, guid, crc)) && Fits(Backup(l, guid, crc))
    ensures 512 <= size <= 4096
  {
    hide TableBlocks, PowerOfTwo;
  }

  lemma PrimaryBytes(disk: Sectors, size: nat, guid: Guid, specs: seq<Spec>)
    requires size > 0 && Sized(disk, size) && |disk| < 0x1_0000_0000_0000_0000
    requires Refusal(size, |disk|, false, guid, specs).None? && Published(disk, size, guid, specs)
    ensures var l := LayoutOf(size, |disk|);
      HeaderIs(disk[1], size, |disk|, Primary(l, guid, Crc.Crc32(EntryRun(specs, 0, ENTRY_COUNT))))
  {
    hide EntryRun, Flat, ProtectiveMbr, SpecsOk, HeaderBlock, HeaderIs, PowerOfTwo, TableBlocks, ZeroGuid;
    var h := Primary(LayoutOf(size, |disk|), guid, Crc.Crc32(EntryRun(specs, 0, ENTRY_COUNT)));
    DeviceIff(size, |disk|);
    PublishedIsWritten(disk, size, guid, specs);
    HeaderRoundTrip(h, size, |disk|);
    HeaderIff(disk[1], size, |disk|, h);
  }

  lemma BackupBytes(l: Layout, guid: Guid, crc: u32, size: nat)
    requires 512 <= size <= 4096 && Fits(Primary(l, guid, crc)) && Fits(Backup(l, guid, crc))
    ensures BackupIs(HeaderBlock(Primary(l, guid, crc), size), HeaderBlock(Backup(l, guid, crc), size),
                     l.backupHeader, l.backupEntries)
  {
    hide HeaderBlock, LE, HeaderSealed, Field, FromLE, HeaderTail, HeaderHead;
    var p, q := Primary(l, guid, crc), Backup(l, guid, crc);
    var a, b := HeaderBlock(p, size), HeaderBlock(q, size);
    BlockFields(p, size);
    BlockFields(q, size);
    FieldsIff(a, p);
    FieldsIff(b, q);
    BlockSealed(q, size);
    SealedIff(b);
    BlockHead(p, size);
    BlockHead(q, size);
    assert a[..12] == a[..16][..12] && b[..12] == b[..16][..12];
    var m: nat :| SealedAs(b, m);
    SealedField(b, m);
    AgreeOn(a, b, 40, 48, 56);
    AgreeOn(a, b, 40, 56, 72);
    AgreeOn(a, b, 80, 84, 88);
    AgreeOn(a, b, 80, 88, 92);
  }

  /** When a layout is written: a device of a good size with room for two tables
      of `n` blocks and a block between them, not read-only, a disk identity,
      and at most 128 partitions with identities, each in the usable blocks, no
      two sharing a block or an identity. */
  lemma WriteIff(size: nat, blocks: nat, readonly: bool, guid: Guid, specs: seq<Spec>, n: nat)
    requires n * size == 128 * 128
    ensures Refusal(size, blocks, readonly, guid, specs).None? <==>
      && size in {512, 1024, 2048, 4096} && blocks >= 4 + 2 * n && !readonly && |specs| <= 128 && NonZero(guid)
      && (forall i | 0 <= i < |specs| ::
            && 2 + n <= specs[i].first <= specs[i].last <= blocks - 2 - n
            && NonZero(specs[i].typeGuid) && NonZero(specs[i].uniqueGuid))
      && (forall i, j | 0 <= j < i < |specs| ::
            && specs[i].uniqueGuid != specs[j].uniqueGuid
            && (specs[i].last < specs[j].first || specs[j].last < specs[i].first))
  {
    hide TableBlocks, NonZero, ZeroGuid, GoodBlockSize;
    DeviceIff(size, blocks);
    Shapes();
    ZeroIff(guid);
    forall i | 0 <= i < |specs|
      ensures ZeroGuid(specs[i].typeGuid) <==> !NonZero(specs[i].typeGuid)
      ensures ZeroGuid(specs[i].uniqueGuid) <==> !NonZero(specs[i].uniqueGuid)
    {
      ZeroIff(specs[i].typeGuid);
      ZeroIff(specs[i].uniqueGuid);
    }
    if CheckDevice(size, blocks).Ok? {
      BlockShape(size);
      SameTimes(n, TableBlocks(size), size);
      assert SpecsOk(specs, 2 + n, blocks - 2 - n) <==>
        && (forall i | 0 <= i < |specs| :: SpecOk(specs[i], 2 + n, blocks - 2 - n))
        && (forall i, j | 0 <= j < i < |specs| :: !SpecsClash(specs[i], specs[j]));
    } else if size in {512, 1024, 2048, 4096} {
      SizeTimes(size, n);
    }
  }

  lemma SizeTimes(size: nat, n: nat)
    requires size in {512, 1024, 2048, 4096} && n * size == 128 * 128
    ensures n == 16384 / size
  {
  }
}
