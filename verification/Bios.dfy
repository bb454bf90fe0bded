/** Embedding the BIOS boot stages into the spare blocks of both partition
    tables, and what it leaves of the tables. */
module Bios {
  import opened Bytes
  import opened Blocks
  import opened FsFormat
  import opened GptFormat
  import opened Gpt
  import Crc

  const TABLE: nat := 32

  /** How many blocks of the second stage go behind each table. */
  datatype Stages = Stages(a: nat, b: nat)

  function StagesOf(image: seq<u8>): Stages
    requires |image| > BLOCK_SIZE
  {
    var blocks := CeilDiv(|image| - BLOCK_SIZE, BLOCK_SIZE);
    Stages(CeilDiv(blocks, 2), blocks / 2)
  }

  /** The stages leave no room in the tables, or do not fill their blocks. */
  predicate Oversized(image: seq<u8>)
    requires |image| > BLOCK_SIZE
  {
    var s := StagesOf(image);
    || s.a * BLOCK_SIZE > |image| - BLOCK_SIZE || s.a * BLOCK_SIZE > 0xffff || s.b * BLOCK_SIZE > 0xffff
    || s.a >= TABLE
  }

  /** An image of two blocks leaves nothing for the second half of the stage, and
      an empty write is refused. */
  predicate NoSecondHalf(image: seq<u8>) { |image| == 2 * BLOCK_SIZE }

  function EntriesLeft(s: Stages): nat
    requires s.a < TABLE
  {
    (TABLE - s.a) * 4
  }

  function StageA(image: seq<u8>): (r: seq<u8>)
    requires |image| > BLOCK_SIZE && !Oversized(image)
    ensures |r| == StagesOf(image).a * BLOCK_SIZE
  {
    image[BLOCK_SIZE..BLOCK_SIZE + StagesOf(image).a * BLOCK_SIZE]
  }

  /** The rest of the image, padded to whole blocks. */
  function StageB(image: seq<u8>): (r: seq<u8>)
    requires |image| > BLOCK_SIZE && !Oversized(image)
    ensures |r| == StagesOf(image).b * BLOCK_SIZE
  {
    var rest := image[BLOCK_SIZE + StagesOf(image).a * BLOCK_SIZE..];
    StageSizes(image);
    rest + Zeros(StagesOf(image).b * BLOCK_SIZE - |rest|)
  }

  lemma StageSizes(image: seq<u8>)
    requires |image| > BLOCK_SIZE && !Oversized(image)
    ensures var s := StagesOf(image);
      && |image| - BLOCK_SIZE <= (s.a + s.b) * BLOCK_SIZE && s.b <= s.a < TABLE && 1 <= s.a
      && (s.b == 0 <==> NoSecondHalf(image))
  {
  }

  // ---- patching a header ---------------------------------------------------------------

  function Put(s: seq<u8>, at: nat, d: seq<u8>): (r: seq<u8>)
    requires at + |d| <= |s|
    ensures |r| == |s|
  {
    s[..at] + d + s[at + |d|..]
  }

  lemma PutInside(a: seq<u8>, b: seq<u8>, c: seq<u8>, d: seq<u8>)
    requires |b| == |d|
    ensures Put(a + b + c, |a|, d) == a + d + c
  {
    var s := a + b + c;
    assert s[..|a|] == a && s[|a| + |d|..] == c;
  }

  /** The header with its entry count, entry checksum and own checksum redone. */
  function Patched(data: seq<u8>, count: u32, crc: u32): (r: seq<u8>)
    requires |data| == BLOCK_SIZE && HEADER_SIZE <= Field(data, 12, 4) <= BLOCK_SIZE
    ensures |r| == BLOCK_SIZE
  {
    var t := Put(data, 80, LE(count, 4));
    var t := Put(t, 88, LE(crc, 4));
    var t := Put(t, 16, LE(0, 4));
    Put(t, 16, LE(Crc.Crc32(t[..Field(data, 12, 4)]), 4))
  }

  lemma ZeroField()
    ensures LE(0, 4) == Zeros(4)
  {
    assert LE(0, 1) == [0] && LE(0, 2) == [0, 0] && LE(0, 3) == [0, 0, 0];
  }

  lemma PutCount(head: seq<u8>, h: Header, pad: seq<u8>, count: u32)
    requires |head| == 20
    ensures Put(head + HeaderTail(h) + pad, 80, LE(count, 4)) == head + HeaderTail(h.(entryCount := count)) + pad
  {
    hide LE, HeaderMid, Put;
    var mid, size, crc := HeaderMid(h), LE(h.entrySize, 4), LE(h.entriesCrc, 4);
    assert head + HeaderTail(h) + pad == (head + mid) + LE(h.entryCount, 4) + (size + crc + pad);
    PutInside(head + mid, LE(h.entryCount, 4), size + crc + pad, LE(count, 4));
    SameMid(h, count, h.entriesCrc);
    assert head + HeaderTail(h.(entryCount := count)) + pad == (head + mid) + LE(count, 4) + (size + crc + pad);
  }

  lemma PutCrc(head: seq<u8>, h: Header, pad: seq<u8>, sum: u32)
    requires |head| == 20
    ensures Put(head + HeaderTail(h) + pad, 88, LE(sum, 4)) == head + HeaderTail(h.(entriesCrc := sum)) + pad
  {
    hide LE, HeaderMid, Put;
    var front := HeaderMid(h) + LE(h.entryCount, 4) + LE(h.entrySize, 4);
    assert head + HeaderTail(h) + pad == (head + front) + LE(h.entriesCrc, 4) + pad;
    PutInside(head + front, LE(h.entriesCrc, 4), pad, LE(sum, 4));
    SameMid(h, h.entryCount, sum);
    assert head + HeaderTail(h.(entriesCrc := sum)) + pad == (head + front) + LE(sum, 4) + pad;
  }

  lemma SameMid(h: Header, count: nat, sum: nat)
    ensures HeaderMid(h.(entryCount := count)) == HeaderMid(h) == HeaderMid(h.(entriesCrc := sum))
  {
  }

  /** Patching a header gives the header with the new fields, sealed again. */
  lemma PatchedIs(h: Header, count: u32, crc: u32)
    ensures Field(HeaderBlock(h, BLOCK_SIZE), 12, 4) == HEADER_SIZE
    ensures Patched(HeaderBlock(h, BLOCK_SIZE), count, crc) ==
      HeaderBlock(h.(entryCount := count, entriesCrc := crc), BLOCK_SIZE)
  {
    hide LE, HeaderTail, HeaderHead, HeaderCrc, Put, Field;
    BlockHead(h, BLOCK_SIZE);
    var pad := Zeros(BLOCK_SIZE - HEADER_SIZE);
    var h1 := h.(entryCount := count);
    var h2 := h1.(entriesCrc := crc);
    var sum := LE(HeaderCrc(h), 4);
    var head := HeaderHead() + sum;
    PutCount(head, h, pad, count);
    PutCrc(head, h1, pad, crc);
    var rest := HeaderTail(h2) + pad;
    assert head + HeaderTail(h2) + pad == HeaderHead() + sum + rest;
    PutInside(HeaderHead(), sum, rest, LE(0, 4));
    var t := HeaderHead() + LE(0, 4) + rest;
    ZeroField();
    assert t[..HEADER_SIZE] == HeaderHead() + Zeros(4) + HeaderTail(h2);
    PutInside(HeaderHead(), LE(0, 4), rest, LE(Crc.Crc32(t[..HEADER_SIZE]), 4));
    SealedCrc(h2, Crc.Crc32(t[..HEADER_SIZE]), pad);
  }

  lemma SealedCrc(h: Header, sum: u32, pad: seq<u8>)
    requires sum == Crc.Crc32(HeaderHead() + Zeros(4) + HeaderTail(h)) && pad == Zeros(BLOCK_SIZE - HEADER_SIZE)
    ensures HeaderHead() + LE(sum, 4) + (HeaderTail(h) + pad) == HeaderBlock(h, BLOCK_SIZE)
  {
    hide LE, HeaderTail, HeaderHead;
  }

  method PatchHeader(dev: Drive, lba: nat, count: u32, crc: u32, ghost h: Header) returns (ok: bool)
    requires dev.Valid() && dev.size == BLOCK_SIZE && lba < |dev.blocks|
    modifies dev
    ensures dev.Valid() && Same(old(dev.blocks), dev.blocks, lba, lba + 1)
    ensures dev.faults >= old(dev.faults) && (ok ==> dev.faults == old(dev.faults))
    ensures old(dev.blocks)[lba] == HeaderBlock(h, BLOCK_SIZE) ==>
      if ok then dev.blocks[lba] == HeaderBlock(h.(entryCount := count, entriesCrc := crc), BLOCK_SIZE)
      else dev.faults > old(dev.faults)
  {
    hide HeaderBlock, Put, LE, Field;
    var block := dev.Read(lba, 1);
    if block.None? {
      return false;
    }
    var data := block.value[0];
    if data == HeaderBlock(h, BLOCK_SIZE) {
      BlockHead(h, BLOCK_SIZE);
      PatchedIs(h, count, crc);
    }
    if data[..8] != SIGNATURE {
      return false;
    }
    var size := Field(data, 12, 4);
    if !(HEADER_SIZE <= size <= BLOCK_SIZE) {
      return false;
    }
    var header := Put(data, 80, LE(count, 4));
    header := Put(header, 88, LE(crc, 4));
    header := Put(header, 16, LE(0, 4));
    header := Put(header, 16, LE(Crc.Crc32(header[..size]), 4));
    ok := dev.Write(lba, [header]);
    assert ok ==> dev.blocks[lba] == dev.blocks[lba..lba + 1][0];
  }

  // ---- the boot record -----------------------------------------------------------------

  /** The image's first block with the stage table filled in, and the old
      record's timestamp and partition area kept. */
  function BootRecord(was: seq<u8>, image: seq<u8>, s: Stages, blocks: nat): (r: seq<u8>)
    requires |was| == BLOCK_SIZE < |image| && s.a <= TABLE && s.b < blocks
    ensures |r| == BLOCK_SIZE
  {
    var t := image[..BLOCK_SIZE];
    var t := Put(t, 420, LE(s.a * BLOCK_SIZE, 2));
    var t := Put(t, 422, LE(s.b * BLOCK_SIZE, 2));
    var t := Put(t, 424, LE((2 + TABLE - s.a) * BLOCK_SIZE, 8));
    var t := Put(t, 432, LE((blocks - 1 - s.b) * BLOCK_SIZE, 8));
    var t := Put(t, 218, was[218..224]);
    Put(t, 440, was[440..510])
  }

  lemma PutHas(s: seq<u8>, at: nat, d: seq<u8>, i: nat, j: nat)
    requires at + |d| <= |s| && i <= j <= |s|
    ensures i == at && j == at + |d| ==> Put(s, at, d)[i..j] == d
    ensures j <= at || at + |d| <= i ==> Put(s, at, d)[i..j] == s[i..j]
  {
    var r := Put(s, at, d);
    if j <= at || at + |d| <= i {
      assert forall k | i <= k < j :: r[k] == s[k];
    }
  }

  /** One field of the record. */
  lemma RecordSlice(was: seq<u8>, image: seq<u8>, s: Stages, blocks: nat, i: nat, j: nat)
    requires |was| == BLOCK_SIZE < |image| && s.a <= TABLE && s.b < blocks && i <= j <= BLOCK_SIZE
    ensures var r := BootRecord(was, image, s, blocks)[i..j];
      && (i == 420 && j == 422 ==> r == LE(s.a * BLOCK_SIZE, 2))
      && (i == 422 && j == 424 ==> r == LE(s.b * BLOCK_SIZE, 2))
      && (i == 424 && j == 432 ==> r == LE((2 + TABLE - s.a) * BLOCK_SIZE, 8))
      && (i == 432 && j == 440 ==> r == LE((blocks - 1 - s.b) * BLOCK_SIZE, 8))
      && ((i == 218 && j == 224) || (i == 440 && j == 510) ==> r == was[i..j])
      && (j <= 218 || 224 <= i <= j <= 420 || 510 <= i ==> r == image[i..j])
  {
    hide Put, LE;
    var t0 := image[..BLOCK_SIZE];
    var t1 := Put(t0, 420, LE(s.a * BLOCK_SIZE, 2));
    var t2 := Put(t1, 422, LE(s.b * BLOCK_SIZE, 2));
    var t3 := Put(t2, 424, LE((2 + TABLE - s.a) * BLOCK_SIZE, 8));
    var t4 := Put(t3, 432, LE((blocks - 1 - s.b) * BLOCK_SIZE, 8));
    var t5 := Put(t4, 218, was[218..224]);
    assert t0[i..j] == image[i..j];
    PutHas(t0, 420, LE(s.a * BLOCK_SIZE, 2), i, j);
    PutHas(t1, 422, LE(s.b * BLOCK_SIZE, 2), i, j);
    PutHas(t2, 424, LE((2 + TABLE - s.a) * BLOCK_SIZE, 8), i, j);
    PutHas(t3, 432, LE((blocks - 1 - s.b) * BLOCK_SIZE, 8), i, j);
    PutHas(t4, 218, was[218..224], i, j);
    PutHas(t5, 440, was[440..510], i, j);
  }

  method WriteRecord(dev: Drive, image: seq<u8>) returns (ok: bool)
    requires dev.Valid() && dev.size == BLOCK_SIZE < |image| && !Oversized(image) && |dev.blocks| > TABLE
    modifies dev
    ensures dev.Valid() && Same(old(dev.blocks), dev.blocks, 0, 1)
    ensures if ok then dev.faults == old(dev.faults) else dev.faults > old(dev.faults)
    ensures ok ==> dev.blocks[0] == BootRecord(old(dev.blocks)[0], image, StagesOf(image), |dev.blocks|)
  {
    hide Put, LE;
    StageSizes(image);
    var s := StagesOf(image);
    var block := dev.Read(0, 1);
    if block.None? {
      return false;
    }
    var mbr := block.value[0];
    var timestamp, partitions := mbr[218..224], mbr[440..510];
    mbr := image[..BLOCK_SIZE];
    mbr := Put(mbr, 420, LE(s.a * BLOCK_SIZE, 2));
    mbr := Put(mbr, 422, LE(s.b * BLOCK_SIZE, 2));
    mbr := Put(mbr, 424, LE((2 + TABLE - s.a) * BLOCK_SIZE, 8));
    mbr := Put(mbr, 432, LE((|dev.blocks| - 1 - s.b) * BLOCK_SIZE, 8));
    mbr := Put(mbr, 218, timestamp);
    mbr := Put(mbr, 440, partitions);
    ok := dev.Write(0, [mbr]);
    assert ok ==> dev.blocks[0] == dev.blocks[0..0 + 1][0];
  }

  // ---- embedding -----------------------------------------------------------------------

  datatype InstallError =
    | PayloadUnavailable | InvalidPayload | BiosPayloadUnavailable | InvalidBiosPayload
    | UnsupportedDevice | TargetTooSmall | AlreadyMounted | Partitioning | WriteFailed | FormatFailed
    | VerifyFailed | SyncFailed | SnapshotFailed | BiosInstallFailed | Injected

  /** Blocks that belong to neither table region stay as they are. */
  ghost predicate KeepsInside(a: Sectors, b: Sectors) {
    |a| == |b| && forall i | 34 <= i < |a| - 33 :: a[i] == b[i]
  }

  /** The embedded disk: shortened tables in front of the stages, both headers
      describing what is left, and the boot record. */
  ghost predicate Embedded(disk: Sectors, guid: Guid, specs: seq<Spec>, image: seq<u8>)
    requires Sized(disk, BLOCK_SIZE) && |disk| >= 68 && |image| > BLOCK_SIZE && !Oversized(image)
  {
    var n, s := |disk|, StagesOf(image);
    StageSizes(image);
    var left := EntriesLeft(s);
    var crc := Crc.Crc32(EntryRun(specs, 0, left));
    var l := Layout(34, n - 34, n - 33, n - 1);
    && Flat(disk[2..34 - s.a]) == EntryRun(specs, 0, left)
    && Flat(disk[n - 33..n - 1 - s.a]) == EntryRun(specs, 0, left)
    && Flat(disk[34 - s.a..34]) == StageA(image)
    && Flat(disk[n - 1 - s.b..n - 1]) == StageB(image)
    && disk[1] == HeaderBlock(Primary(l, guid, crc).(entryCount := left), BLOCK_SIZE)
    && disk[n - 1] == HeaderBlock(Backup(l, guid, crc).(entryCount := left), BLOCK_SIZE)
    && disk[0] == BootRecord(ProtectiveMbr(BLOCK_SIZE, n), image, s, n)
  }

  /** The front of a full table is the table of the entries that are left. */
  lemma TableFront(region: Sectors, specs: seq<Spec>, kept: nat)
    requires Sized(region, BLOCK_SIZE) && |region| == TABLE && kept <= TABLE
    requires Flat(region) == EntryRun(specs, 0, ENTRY_COUNT)
    ensures Flat(region[..kept]) == EntryRun(specs, 0, kept * 4)
  {
    hide EntryRun, Flat;
    assert region == region[..kept] + region[kept..];
    FlatConcat(region[..kept], region[kept..]);
    FlatLen(region[..kept], BLOCK_SIZE);
    EntryRunConcat(specs, 0, kept * 4, ENTRY_COUNT - kept * 4);
    SamePrefix(Flat(region[..kept]), Flat(region[kept..]),
      EntryRun(specs, 0, kept * 4), EntryRun(specs, kept * 4, ENTRY_COUNT - kept * 4));
  }

  lemma SamePrefix(a: seq<u8>, b: seq<u8>, c: seq<u8>, d: seq<u8>)
    requires a + b == c + d && |a| == |c|
    ensures a == c
  {
    assert (a + b)[..|a|] == a && (c + d)[..|c|] == c;
  }

  /** Both halves of the stage into the ends of the table regions. */
  method WriteStages(dev: Drive, image: seq<u8>) returns (ok: bool)
    requires dev.Valid() && dev.size == BLOCK_SIZE < |image| && !Oversized(image) && |dev.blocks| >= 68
    modifies dev
    ensures dev.Valid() && |dev.blocks| == old(|dev.blocks|)
    ensures var n, s := |dev.blocks|, StagesOf(image);
      && s.b <= s.a <= TABLE
      && (forall i | 0 <= i < 34 - s.a || 34 <= i < n - 1 - s.b || i == n - 1 :: dev.blocks[i] == old(dev.blocks)[i])
      && (ok ==> Flat(dev.blocks[34 - s.a..34]) == StageA(image)
                    && Flat(dev.blocks[n - 1 - s.b..n - 1]) == StageB(image))
    ensures dev.faults >= old(dev.faults)
    ensures if ok then dev.faults == old(dev.faults) && !NoSecondHalf(image)
      else NoSecondHalf(image) || dev.faults > old(dev.faults)
  {
    hide Flat, Cut, StageA, StageB;
    StageSizes(image);
    var s := StagesOf(image);
    CutIs(StageA(image), BLOCK_SIZE, s.a);
    CutIs(StageB(image), BLOCK_SIZE, s.b);
    ok := dev.Write(34 - s.a, Cut(StageA(image), BLOCK_SIZE));
    if !ok {
      return;
    }
    ghost var first := dev.blocks;
    ok := dev.Write(|dev.blocks| - 1 - s.b, Cut(StageB(image), BLOCK_SIZE));
    SameSlice(first, dev.blocks, |first| - 1 - s.b, |first| - 1, 34 - s.a, 34);
  }

  lemma SameSlice(a: Sectors, b: Sectors, lo: nat, hi: nat, x: nat, y: nat)
    requires Same(a, b, lo, hi) && x <= y <= |a| && y <= lo
    ensures a[x..y] == b[x..y]
  {
  }

  lemma EmbeddedIs(before: Sectors, after: Sectors, guid: Guid, specs: seq<Spec>, image: seq<u8>)
    requires Sized(before, BLOCK_SIZE) && Sized(after, BLOCK_SIZE) && |before| == |after| >= 68
    requires |image| > BLOCK_SIZE && !Oversized(image) && Published(before, BLOCK_SIZE, guid, specs)
    requires var n, s := |after|, StagesOf(image);
      var crc := Crc.Crc32(Flat(before[2..34 - s.a]));
      var l := Layout(34, n - 34, n - 33, n - 1);
      && s.b <= s.a < TABLE
      && (forall i | 2 <= i < 34 - s.a || n - 33 <= i < n - 1 - s.b :: after[i] == before[i])
      && Flat(after[34 - s.a..34]) == StageA(image) && Flat(after[n - 1 - s.b..n - 1]) == StageB(image)
      && after[1] == HeaderBlock(Primary(l, guid, crc).(entryCount := EntriesLeft(s)), BLOCK_SIZE)
      && after[n - 1] == HeaderBlock(Backup(l, guid, crc).(entryCount := EntriesLeft(s)), BLOCK_SIZE)
      && after[0] == BootRecord(before[0], image, s, n)
    ensures Embedded(after, guid, specs, image)
  {
    hide Flat, StageA, StageB, EntryRun, HeaderBlock, BootRecord, ProtectiveMbr, StagesOf, Oversized;
    var n, s := |after|, StagesOf(image);
    Shapes();
    assert before[2..34][..TABLE - s.a] == before[2..34 - s.a] == after[2..34 - s.a];
    TableFront(before[2..34], specs, TABLE - s.a);
    assert before[n - 33..n - 1][..TABLE - s.a] == after[n - 33..n - 1 - s.a];
    TableFront(before[n - 33..n - 1], specs, TABLE - s.a);
  }

  /** Both headers, then the boot record. */
  method Seal(dev: Drive, image: seq<u8>, left: u32, crc: u32, ghost front: Header, ghost back: Header)
    returns (ok: bool)
    requires dev.Valid() && dev.size == BLOCK_SIZE < |image| && !Oversized(image) && |dev.blocks| >= 68
    modifies dev
    ensures dev.Valid() && |dev.blocks| == old(|dev.blocks|)
    ensures forall i | 2 <= i < |dev.blocks| - 1 :: dev.blocks[i] == old(dev.blocks)[i]
    ensures dev.faults >= old(dev.faults) && (ok ==> dev.faults == old(dev.faults))
    ensures ok ==> dev.blocks[0] == BootRecord(old(dev.blocks)[0], image, StagesOf(image), |dev.blocks|)
    ensures
      (&& old(dev.blocks)[1] == HeaderBlock(front, BLOCK_SIZE)
       && old(dev.blocks)[|dev.blocks| - 1] == HeaderBlock(back, BLOCK_SIZE)) ==>
      if ok then
        && dev.blocks[1] == HeaderBlock(front.(entryCount := left, entriesCrc := crc), BLOCK_SIZE)
        && dev.blocks[|dev.blocks| - 1] == HeaderBlock(back.(entryCount := left, entriesCrc := crc), BLOCK_SIZE)
      else dev.faults > old(dev.faults)
  {
    hide HeaderBlock, BootRecord;
    ok := PatchHeader(dev, 1, left, crc, front);
    if !ok {
      return;
    }
    ok := PatchHeader(dev, |dev.blocks| - 1, left, crc, back);
    if !ok {
      return;
    }
    ok := WriteRecord(dev, image);
  }

  method InstallBios(dev: Drive, image: seq<u8>, ghost guid: Guid, ghost specs: seq<Spec>)
    returns (r: Option<InstallError>)
    requires dev.Valid() && dev.size == BLOCK_SIZE < |image| && |dev.blocks| >= 68
    modifies dev
    ensures dev.Valid() && KeepsInside(old(dev.blocks), dev.blocks)
    ensures dev.faults >= old(dev.faults)
    ensures r.None? ==> dev.faults == old(dev.faults) && !Oversized(image) && !NoSecondHalf(image)
    ensures Oversized(image) ==> r == Some(InvalidBiosPayload) && dev.blocks == old(dev.blocks)
    ensures !Oversized(image) && NoSecondHalf(image) ==> r == Some(BiosInstallFailed)
    ensures old(Published(dev.blocks, BLOCK_SIZE, guid, specs)) && !Oversized(image) ==>
      if r.None? then Embedded(dev.blocks, guid, specs, image)
      else NoSecondHalf(image) || dev.faults > old(dev.faults)
  {
    hide Flat, StageA, StageB, EntryRun, HeaderBlock, BootRecord, ProtectiveMbr, StagesOf;
    if Oversized(image) {
      return Some(InvalidBiosPayload);
    }
    StageSizes(image);
    var s := StagesOf(image);
    var left := EntriesLeft(s);
    var entries := dev.Read(2, TABLE - s.a);
    if entries.None? {
      return Some(BiosInstallFailed);
    }
    var crc := Crc.Crc32(Flat(entries.value));
    var ok := WriteStages(dev, image);
    if !ok {
      return Some(BiosInstallFailed);
    }
    ghost var staged := dev.blocks;
    ghost var l := Layout(34, |dev.blocks| - 34, |dev.blocks| - 33, |dev.blocks| - 1);
    ghost var full := Crc.Crc32(EntryRun(specs, 0, ENTRY_COUNT));
    ok := Seal(dev, image, left, crc, Primary(l, guid, full), Backup(l, guid, full));
    if !ok {
      return Some(BiosInstallFailed);
    }
    assert dev.blocks[34 - s.a..34] == staged[34 - s.a..34];
    assert dev.blocks[|staged| - 1 - s.b..|staged| - 1] == staged[|staged| - 1 - s.b..|staged| - 1];
    if old(Published(dev.blocks, BLOCK_SIZE, guid, specs)) {
      EmbeddedIs(old(dev.blocks), dev.blocks, guid, specs, image);
    }
    return None;
  }

  // ---- what embedding keeps ----------------------------------------------------------

  /** A header carries its own checksum and that of the entries it points at. */
  predicate Consistent(disk: Sectors, lba: nat)
    requires Sized(disk, BLOCK_SIZE) && lba < |disk|
  {
    && HeaderSealed(disk[lba])
    && var h := HeaderFields(disk[lba]);
       h.entriesLba + EntryBlocks(h, BLOCK_SIZE) <= |disk| && Crc.Crc32(EntryBytes(disk, h, BLOCK_SIZE)) == h.entriesCrc
  }

  lemma ConsistentIs(disk: Sectors, lba: nat, h: Header, bytes: seq<u8>)
    requires Sized(disk, BLOCK_SIZE) && lba < |disk| && Fits(h) && disk[lba] == HeaderBlock(h, BLOCK_SIZE)
    requires h.entriesLba + EntryBlocks(h, BLOCK_SIZE) <= |disk|
    requires EntryBlocks(h, BLOCK_SIZE) * BLOCK_SIZE == h.entryCount * h.entrySize
    requires Flat(disk[h.entriesLba..h.entriesLba + EntryBlocks(h, BLOCK_SIZE)]) == bytes
    requires h.entriesCrc == Crc.Crc32(bytes)
    ensures EntryBytes(disk, h, BLOCK_SIZE) == bytes && Consistent(disk, lba)
  {
    hide HeaderBlock, HeaderFields, HeaderSealed, Flat, Fits;
    BlockSealed(h, BLOCK_SIZE);
    BlockFields(h, BLOCK_SIZE);
    FlatLen(disk[h.entriesLba..h.entriesLba + EntryBlocks(h, BLOCK_SIZE)], BLOCK_SIZE);
    assert bytes[..|bytes|] == bytes;
  }

  /** After embedding, both headers agree with the entries they still have, and
      reading gives the same partitions as before. */
  lemma EmbeddedReads(disk: Sectors, guid: Guid, specs: seq<Spec>, image: seq<u8>)
    requires Sized(disk, BLOCK_SIZE) && 68 <= |disk| < 0x1_0000_0000_0000_0000
    requires |image| > BLOCK_SIZE && !Oversized(image) && |specs| <= EntriesLeft(StagesOf(image))
    requires Refusal(BLOCK_SIZE, |disk|, false, guid, specs).None? && Embedded(disk, guid, specs, image)
    ensures Consistent(disk, 1) && Consistent(disk, |disk| - 1)
    ensures ReadTable(disk, BLOCK_SIZE) ==
      if |specs| > MAX_PARTITIONS then Err(TooManyEntries)
      else Ok(Table(guid, 34, |disk| - 34, Listed(specs)))
  {
    hide HeaderBlock, HeaderFields, Flat, StageA, StageB, BootRecord, ProtectiveMbr, StagesOf, SpecsOk, ReadTable,
      EntryRun, EntryBytes, PowerOfTwo, Consistent;
    StageSizes(image);
    Shapes();
    var n, s := |disk|, StagesOf(image);
    var left := EntriesLeft(s);
    var run := EntryRun(specs, 0, left);
    var l := Layout(34, n - 34, n - 33, n - 1);
    var front, back := Primary(l, guid, Crc.Crc32(run)).(entryCount := left),
        Backup(l, guid, Crc.Crc32(run)).(entryCount := left);
    assert EntryBlocks(front, BLOCK_SIZE) == EntryBlocks(back, BLOCK_SIZE) == TABLE - s.a;
    ConsistentIs(disk, 1, front, run);
    ConsistentIs(disk, n - 1, back, run);
    assert PowerOfTwo(ENTRY_SIZE) by { Powers(); }
    ReadBack(disk, front, specs, BLOCK_SIZE);
  }

  lemma Powers()
    ensures PowerOfTwo(ENTRY_SIZE) && PowerOfTwo(BLOCK_SIZE)
  {
  }

  // ---- booting -------------------------------------------------------------------------

  /** The bytes a boot record's stage entry points at. */
  function StageAt(disk: Sectors, at: nat, len: nat): seq<u8>
    requires at / BLOCK_SIZE + len / BLOCK_SIZE <= |disk|
  {
    Flat(disk[at / BLOCK_SIZE..at / BLOCK_SIZE + len / BLOCK_SIZE])
  }

  /** Following the boot record's stage table gives back the second stage. */
  ghost predicate Boots(disk: Sectors, image: seq<u8>)
    requires |disk| > 0 && |disk[0]| >= BLOCK_SIZE && |image| >= BLOCK_SIZE
  {
    var m := disk[0];
    var atA, atB, lenA, lenB := Field(m, 424, 8), Field(m, 432, 8), Field(m, 420, 2), Field(m, 422, 2);
    && atA / BLOCK_SIZE + lenA / BLOCK_SIZE <= |disk| && atB / BLOCK_SIZE + lenB / BLOCK_SIZE <= |disk|
    && image[BLOCK_SIZE..] <= StageAt(disk, atA, lenA) + StageAt(disk, atB, lenB)
  }

  /** An embedded disk boots its image, from any disk whose byte offsets fit 64
      bits. */
  lemma BootLoads(disk: Sectors, guid: Guid, specs: seq<Spec>, image: seq<u8>)
    requires Sized(disk, BLOCK_SIZE) && 68 <= |disk| && |disk| * BLOCK_SIZE <= 0x1_0000_0000_0000_0000
    requires |image| > BLOCK_SIZE && !Oversized(image) && Embedded(disk, guid, specs, image)
    ensures Boots(disk, image)
    ensures disk[0][..218] == image[..218] && disk[0][510..512] == image[510..512]
    ensures disk[0][440..510] == ProtectiveMbr(BLOCK_SIZE, |disk|)[440..510]
  {
    hide HeaderBlock, Flat, BootRecord, ProtectiveMbr, StagesOf, EntryRun, Field, Oversized, StageA, StageB;
    StageSizes(image);
    var n, s, was := |disk|, StagesOf(image), ProtectiveMbr(BLOCK_SIZE, |disk|);
    StageFields(was, image, s, n);
    WholeBlocks(2 + TABLE - s.a);
    WholeBlocks(n - 1 - s.b);
    WholeBlocks(s.a);
    WholeBlocks(s.b);
    RecordSlice(was, image, s, n, 0, 218);
    RecordSlice(was, image, s, n, 510, 512);
    RecordSlice(was, image, s, n, 440, 510);
    StagesJoin(image);
  }

  lemma WholeBlocks(k: nat)
    ensures k * BLOCK_SIZE / BLOCK_SIZE == k
  {
  }

  lemma StageFields(was: seq<u8>, image: seq<u8>, s: Stages, blocks: nat)
    requires |was| == BLOCK_SIZE < |image| && s.b <= s.a < TABLE && s.b < blocks
    requires blocks * BLOCK_SIZE <= 0x1_0000_0000_0000_0000
    ensures var r := BootRecord(was, image, s, blocks);
      && Field(r, 420, 2) == s.a * BLOCK_SIZE && Field(r, 422, 2) == s.b * BLOCK_SIZE
      && Field(r, 424, 8) == (2 + TABLE - s.a) * BLOCK_SIZE && Field(r, 432, 8) == (blocks - 1 - s.b) * BLOCK_SIZE
  {
    hide BootRecord, LE, FromLE;
    RecordSlice(was, image, s, blocks, 420, 422);
    RecordSlice(was, image, s, blocks, 422, 424);
    RecordSlice(was, image, s, blocks, 424, 432);
    RecordSlice(was, image, s, blocks, 432, 440);
    LE16(s.a * BLOCK_SIZE);
    LE16(s.b * BLOCK_SIZE);
    LE64((2 + TABLE - s.a) * BLOCK_SIZE);
    LE64((blocks - 1 - s.b) * BLOCK_SIZE);
  }

  lemma StagesJoin(image: seq<u8>)
    requires |image| > BLOCK_SIZE && !Oversized(image)
    ensures image[BLOCK_SIZE..] <= StageA(image) + StageB(image)
  {
    hide StagesOf;
    StageSizes(image);
    var cut := BLOCK_SIZE + StagesOf(image).a * BLOCK_SIZE;
    assert image[BLOCK_SIZE..] == image[BLOCK_SIZE..cut] + image[cut..];
  }
}
