/** The installer's transaction: plan, snapshot, then partition, format, copy,
    verify, embed and sync; any failure restores the partition tables. */
module Installer {
  import opened Bytes
  import opened Blocks
  import opened FsFormat
  import opened GptFormat
  import opened Bios
  import opened FsMake
  import Gpt
  import FsCheck
  import FsHistory
  import FsLoad
  import FsOps
  import FsRuns

  const ESP_START: nat := 2048
  const TRAILING: nat := 34
  const ESP_TYPE: Guid :=
    [0x28, 0x73, 0x2a, 0xc1, 0x1f, 0xf8, 0xd2, 0x11, 0xba, 0x4b, 0x00, 0xa0, 0xc9, 0x3e, 0xc9, 0x3b]
  const SYSTEM_TYPE: Guid :=
    [0x44, 0x55, 0x4e, 0x49, 0x54, 0x00, 0x53, 0x59, 0x53, 0x54, 0x45, 0x4d, 0x00, 0x00, 0x00, 0x01]
  const ESP_NAME: seq<u16> := [68, 85, 78, 73, 84, 45, 69, 83, 80]
  const SYSTEM_NAME: seq<u16> := [68, 85, 78, 73, 84, 45, 83, 89, 83, 84, 69, 77]

  datatype Fault = NoFault | AfterPartition | AfterFormat | AfterCopy | AfterBootConfig

  /** What the installer is given: the driver's name, whether a volume is
      mounted, both payloads, and the mixed bits of three identifiers. */
  datatype Inputs = Inputs(
    driver: string, mounted: bool, payload: Option<seq<u8>>, bios: Option<seq<u8>>,
    diskBits: Guid, espBits: Guid, rootBits: Guid)

  datatype Plan = Plan(
    payload: seq<u8>, bios: seq<u8>, diskGuid: Guid, specs: seq<Spec>, rootStart: nat, rootBlocks: nat)

  datatype Planned = Accepted(plan: Plan) | Rejected(error: InstallError)

  predicate Supported(driver: string) { driver == "ahci" || driver == "virtio-blk" }

  /** An identifier made of 16 mixed bytes: version 4 and its variant are stamped
      over bytes 7 and 8. */
  function MakeGuid(bits: Guid): (g: Guid)
    ensures Stamped(g)
  {
    bits[7 := bits[7] % 16 + 0x40][8 := bits[8] % 64 + 0x80]
  }

  predicate Stamped(g: Guid) { g[7] / 16 == 4 && g[8] / 64 == 2 }

  lemma StampedNonzero(g: Guid)
    requires Stamped(g)
    ensures !ZeroGuid(g)
  {
    assert g[7] != 0;
  }

  // ---- planning ------------------------------------------------------------------------

  function PlanLayout(blocks: u64, payload: seq<u8>, bios: seq<u8>, inp: Inputs): Planned {
    var rootStart := ESP_START + |payload| / BLOCK_SIZE;
    if blocks < TRAILING then Rejected(TargetTooSmall)
    else
      var rootEnd := blocks - TRAILING;
      if rootStart >= rootEnd || rootEnd - rootStart < 2048 then Rejected(TargetTooSmall)
      else
        var esp := Spec(ESP_TYPE, MakeGuid(inp.espBits), ESP_START, rootStart - 1, 0, ESP_NAME);
        var root := Spec(SYSTEM_TYPE, MakeGuid(inp.rootBits), rootStart, rootEnd, 0, SYSTEM_NAME);
        Accepted(Plan(payload, bios, MakeGuid(inp.diskBits), [esp, root], rootStart, rootEnd - rootStart + 1))
  }

  /** The read-only first phase. */
  function MakePlan(size: nat, blocks: u64, readonly: bool, inp: Inputs): Planned {
    if readonly || size != BLOCK_SIZE || !Supported(inp.driver) then Rejected(UnsupportedDevice)
    else if inp.mounted then Rejected(AlreadyMounted)
    else if inp.payload.None? || inp.payload.value == [] then Rejected(PayloadUnavailable)
    else if |inp.payload.value| % BLOCK_SIZE != 0 then Rejected(InvalidPayload)
    else if inp.bios.None? || inp.bios.value == [] then Rejected(BiosPayloadUnavailable)
    else if |inp.bios.value| <= BLOCK_SIZE || inp.bios.value[510..512] != [0x55, 0xaa] then Rejected(InvalidBiosPayload)
    else PlanLayout(blocks, inp.payload.value, inp.bios.value, inp)
  }

  /** The shape of an accepted plan. */
  ghost predicate PlanOk(p: Plan, blocks: nat) {
    && |p.bios| > BLOCK_SIZE && p.bios[510..512] == [0x55, 0xaa]
    && |p.payload| >= BLOCK_SIZE && |p.payload| % BLOCK_SIZE == 0
    && p.rootStart == ESP_START + |p.payload| / BLOCK_SIZE
    && p.rootStart + p.rootBlocks == blocks - 33 && p.rootBlocks > 2048 && blocks < 0x1_0000_0000_0000_0000
    && |p.specs| == 2
    && p.specs[0].typeGuid == ESP_TYPE && p.specs[0].first == ESP_START && p.specs[0].last == p.rootStart - 1
    && Stamped(p.diskGuid) && Stamped(p.specs[0].uniqueGuid) && Stamped(p.specs[1].uniqueGuid)
    && p.specs[1].typeGuid == SYSTEM_TYPE && p.specs[1].first == p.rootStart && p.specs[1].last == blocks - TRAILING
  }

  ghost predicate GuidsDiffer(p: Plan)
    requires |p.specs| == 2
  {
    p.specs[0].uniqueGuid != p.specs[1].uniqueGuid
  }

  lemma PlanShape(size: nat, blocks: u64, readonly: bool, inp: Inputs)
    requires MakePlan(size, blocks, readonly, inp).Accepted?
    ensures size == BLOCK_SIZE && !readonly && PlanOk(MakePlan(size, blocks, readonly, inp).plan, blocks)
  {
  }

  predicate Given(bytes: Option<seq<u8>>) { bytes.Some? && |bytes.value| > 0 }

  /** The first condition a target or its payloads fail, in order, if any. */
  function Obstacle(size: nat, blocks: u64, readonly: bool, inp: Inputs): Option<InstallError> {
    if readonly || size != 512 || inp.driver !in {"ahci", "virtio-blk"} then Some(UnsupportedDevice)
    else if inp.mounted then Some(AlreadyMounted)
    else if !Given(inp.payload) then Some(PayloadUnavailable)
    else if |inp.payload.value| % 512 != 0 then Some(InvalidPayload)
    else if !Given(inp.bios) then Some(BiosPayloadUnavailable)
    else if |inp.bios.value| <= 512 || inp.bios.value[510] != 0x55 || inp.bios.value[511] != 0xaa
    then Some(InvalidBiosPayload)
    else if blocks < 2048 + |inp.payload.value| / 512 + 2048 + 34 then Some(TargetTooSmall)
    else None
  }

  /** A writable 512-byte target of a supported driver, with nothing mounted, a
      payload of whole blocks, a boot payload that ends its first block with the
      boot signature, and room for the payload, 2048 blocks before it, 2048
      after it and 34 at the end is planned for; any other is rejected for the
      first of these it fails. */
  lemma PlanIff(size: nat, blocks: u64, readonly: bool, inp: Inputs)
    ensures match MakePlan(size, blocks, readonly, inp)
      case Accepted(_) => Obstacle(size, blocks, readonly, inp) == None
      case Rejected(e) => Obstacle(size, blocks, readonly, inp) == Some(e)
    ensures Obstacle(size, blocks, readonly, inp) == None <==>
      && !readonly && size == 512 && (inp.driver == "ahci" || inp.driver == "virtio-blk") && !inp.mounted
      && Given(inp.payload) && |inp.payload.value| % 512 == 0
      && Given(inp.bios) && |inp.bios.value| > 512 && inp.bios.value[510] == 0x55 && inp.bios.value[511] == 0xaa
      && blocks >= 4130 + |inp.payload.value| / 512
  {
    if Given(inp.bios) && |inp.bios.value| > 512 {
      assert inp.bios.value[510..512] == [inp.bios.value[510], inp.bios.value[511]];
    }
  }

  /** The partition writer accepts the plan exactly when the two partitions'
      identifiers differ. */
  lemma PlanWritable(p: Plan, blocks: nat)
    requires PlanOk(p, blocks)
    ensures Gpt.Refusal(BLOCK_SIZE, blocks, false, p.diskGuid, p.specs).None? <==> GuidsDiffer(p)
    ensures CheckDevice(BLOCK_SIZE, blocks).Ok?
    ensures Gpt.LayoutOf(BLOCK_SIZE, blocks) == Gpt.Layout(34, blocks - 34, blocks - 33, blocks - 1)
  {
    hide PowerOfTwo, ZeroGuid;
    Powers();
    Shapes();
    assert !ZeroGuid(ESP_TYPE) && !ZeroGuid(SYSTEM_TYPE) by { TypesNonzero(); }
    var s := p.specs;
    StampedNonzero(p.diskGuid);
    StampedNonzero(s[0].uniqueGuid);
    StampedNonzero(s[1].uniqueGuid);
    assert SpecOk(s[0], 34, blocks - 34) && SpecOk(s[1], 34, blocks - 34);
    assert GuidsDiffer(p) <==> !SpecsClash(s[1], s[0]);
  }

  lemma TypesNonzero()
    ensures !ZeroGuid(ESP_TYPE) && !ZeroGuid(SYSTEM_TYPE)
  {
    assert ESP_TYPE[0] != 0 && SYSTEM_TYPE[0] != 0;
  }

  lemma PlanFormattable(p: Plan, blocks: nat)
    requires PlanOk(p, blocks)
    ensures Formattable(BLOCK_SIZE, blocks, p.rootStart, p.rootBlocks)
  {
  }

  // ---- phases --------------------------------------------------------------------------

  ghost predicate Mountable(disk: Sectors, p: Plan)
    requires Sized(disk, BLOCK_SIZE) && PlanOk(p, |disk|)
  {
    var g := Derive(p.rootBlocks);
    FsCheck.LoadPartition(Part(disk, p.rootStart, p.rootBlocks)) ==
    FsLoad.Loaded(FsRuns.MountOf(g, FsHistory.FormatMeta(g)))
  }

  ghost predicate Copied(disk: Sectors, p: Plan)
    requires PlanOk(p, |disk|)
  {
    Flat(disk[ESP_START..p.rootStart]) == p.payload
  }

  lemma DataKept(a: Sectors, b: Sectors, p: Plan)
    requires Sized(a, BLOCK_SIZE) && Sized(b, BLOCK_SIZE) && KeepsInside(a, b) && PlanOk(p, |a|)
    ensures Mountable(a, p) ==> Mountable(b, p)
    ensures Copied(a, p) ==> Copied(b, p)
  {
    hide FsCheck.LoadPartition, Derive, Flat;
    assert a[p.rootStart..p.rootStart + p.rootBlocks] == b[p.rootStart..p.rootStart + p.rootBlocks];
    assert a[ESP_START..p.rootStart] == b[ESP_START..p.rootStart];
  }

  lemma TablesKept(a: Sectors, b: Sectors, p: Plan)
    requires Sized(a, BLOCK_SIZE) && Sized(b, BLOCK_SIZE) && PlanOk(p, |a|) && Same(a, b, 34, |a| - 33)
    requires CheckDevice(BLOCK_SIZE, |a|).Ok? && Gpt.Published(a, BLOCK_SIZE, p.diskGuid, p.specs)
    ensures Gpt.Published(b, BLOCK_SIZE, p.diskGuid, p.specs)
  {
    hide Flat, HeaderBlock, EntryRun, Gpt.ProtectiveMbr, PowerOfTwo;
    Shapes();
    var n := |a|;
    assert a[2..34] == b[2..34] && a[n - 33..n - 1] == b[n - 33..n - 1];
  }

  // ---- verifying -----------------------------------------------------------------------

  predicate HasPartition(ps: seq<Partition>, kind: Guid, first: nat) {
    exists i :: 0 <= i < |ps| && ps[i].typeGuid == kind && ps[i].first == first
  }

  /** The root partition would mount read/write. */
  ghost predicate RootClean(disk: Sectors, p: Plan)
    requires Sized(disk, BLOCK_SIZE) && PlanOk(p, |disk|)
  {
    var mount := FsCheck.LoadPartition(Part(disk, p.rootStart, p.rootBlocks));
    mount.Loaded? && !mount.fs.readOnly
  }

  /** What the verify phase looks at. */
  ghost predicate Checks(disk: Sectors, p: Plan)
    requires Sized(disk, BLOCK_SIZE) && PlanOk(p, |disk|)
  {
    hide ReadTable, RootClean;
    var table := ReadTable(disk, BLOCK_SIZE);
    && table.Ok? && HasPartition(table.value.partitions, ESP_TYPE, ESP_START)
    && HasPartition(table.value.partitions, SYSTEM_TYPE, p.rootStart)
    && RootClean(disk, p)
    && disk[ESP_START] == p.payload[..BLOCK_SIZE]
  }

  method FindPartition(ps: seq<Partition>, kind: Guid, first: nat) returns (found: bool)
    ensures found <==> HasPartition(ps, kind, first)
  {
    found := false;
    for i := 0 to |ps|
      invariant found <==> HasPartition(ps[..i], kind, first)
    {
      assert ps[..i + 1] == ps[..i] + [ps[i]];
      if ps[i].typeGuid == kind && ps[i].first == first {
        assert ps[..i + 1][i] == ps[i];
        found := true;
      }
    }
    assert ps[..|ps|] == ps;
  }

  method VerifyInstall(dev: Drive, p: Plan) returns (ok: bool)
    requires dev.Valid() && dev.size == BLOCK_SIZE && PlanOk(p, |dev.blocks|)
    modifies dev`faults
    ensures dev.faults >= old(dev.faults)
    ensures dev.faults == old(dev.faults) ==> (ok <==> Checks(dev.blocks, p))
  {
    hide ReadTable, FsCheck.LoadPartition, HasPartition;
    var table := Gpt.Read(dev);
    if table.Err? {
      return false;
    }
    var esp := FindPartition(table.value.partitions, ESP_TYPE, ESP_START);
    var system := FindPartition(table.value.partitions, SYSTEM_TYPE, p.rootStart);
    if !esp || !system {
      return false;
    }
    var clean := CheckRoot(dev, p);
    if !clean {
      return false;
    }
    var first := dev.Read(ESP_START, 1);
    if first.None? {
      return false;
    }
    return first.value[0] == p.payload[..BLOCK_SIZE];
  }

  /** The check of the new root; one that could not read every block may go
      either way. */
  method CheckRoot(dev: Drive, p: Plan) returns (clean: bool)
    requires dev.Valid() && dev.size == BLOCK_SIZE && PlanOk(p, |dev.blocks|)
    modifies dev`faults
    ensures dev.faults >= old(dev.faults)
    ensures dev.faults == old(dev.faults) ==> (clean <==> RootClean(dev.blocks, p))
  {
    hide FsCheck.LoadPartition;
    var part := dev.Read(p.rootStart, p.rootBlocks);
    if part.None? {
      clean := *;
      return;
    }
    var report := FsCheck.Fsck(Part(dev.blocks, p.rootStart, p.rootBlocks));
    return report.verdict == FsCheck.Clean;
  }

  /** What the earlier phases wrote passes the verify phase. */
  lemma ChecksPass(disk: Sectors, p: Plan)
    requires Sized(disk, BLOCK_SIZE) && PlanOk(p, |disk|) && GuidsDiffer(p) && CheckDevice(BLOCK_SIZE, |disk|).Ok?
    requires Gpt.Published(disk, BLOCK_SIZE, p.diskGuid, p.specs) && Mountable(disk, p) && Copied(disk, p)
    ensures Checks(disk, p)
  {
    hide ReadTable, FsCheck.LoadPartition, Gpt.Published, Gpt.Refusal, Flat, FsHistory.FormatMeta, Derive, HeaderSealed;
    PlanWritable(p, |disk|);
    Gpt.RoundTrip(disk, BLOCK_SIZE, p.diskGuid, p.specs);
    var ps := Listed(p.specs);
    assert ps[0].typeGuid == ESP_TYPE && ps[1].typeGuid == SYSTEM_TYPE;
    FlatSlice(disk[ESP_START..p.rootStart], BLOCK_SIZE, 0, 0, BLOCK_SIZE);
  }

  method SyncPhase(dev: Drive) returns (ok: bool)
    requires dev.Valid() && dev.size == BLOCK_SIZE && |dev.blocks| > 0
    modifies dev`faults
    ensures dev.faults >= old(dev.faults)
    ensures dev.faults == old(dev.faults) ==>
      (ok <==> ReadTable(dev.blocks, BLOCK_SIZE).Ok? && dev.blocks[0][510..512] == [0x55, 0xaa])
  {
    hide ReadTable;
    var table := Gpt.Read(dev);
    if table.Err? {
      return false;
    }
    var mbr := dev.Read(0, 1);
    if mbr.None? {
      return false;
    }
    return mbr.value[0][510..512] == [0x55, 0xaa];
  }

  // ---- the transaction -----------------------------------------------------------------

  /** What a committed installation is. */
  ghost predicate Installed(disk: Sectors, p: Plan)
    requires Sized(disk, BLOCK_SIZE) && PlanOk(p, |disk|)
  {
    && GuidsDiffer(p) && !Oversized(p.bios) && Embedded(disk, p.diskGuid, p.specs, p.bios)
    && Mountable(disk, p) && Copied(disk, p)
  }

  /** Partition and format. */
  method MakeVolume(dev: Drive, p: Plan, fault: Fault) returns (r: Option<InstallError>)
    requires dev.Valid() && dev.size == BLOCK_SIZE && !dev.readonly && PlanOk(p, |dev.blocks|)
    modifies dev
    ensures dev.Valid() && |dev.blocks| == old(|dev.blocks|)
    ensures forall i | 34 <= i < ESP_START :: dev.blocks[i] == old(dev.blocks)[i]
    ensures dev.faults >= old(dev.faults) && (r.None? ==> dev.faults == old(dev.faults))
    ensures r.None? ==>
      && GuidsDiffer(p) && fault !in {AfterPartition, AfterFormat} && CheckDevice(BLOCK_SIZE, |dev.blocks|).Ok?
      && Gpt.Published(dev.blocks, BLOCK_SIZE, p.diskGuid, p.specs) && Mountable(dev.blocks, p)
    ensures r.Some? ==> !GuidsDiffer(p) || fault in {AfterPartition, AfterFormat} || dev.faults > old(dev.faults)
  {
    hide Gpt.Published, Gpt.Refusal, GuidsDiffer, Mountable, Derive, Formattable, FsHistory.FormatMeta,
         FsRuns.Publishable;
    PlanWritable(p, |dev.blocks|);
    PlanFormattable(p, |dev.blocks|);
    var written := Gpt.Write(dev, p.diskGuid, p.specs);
    if written.Err? {
      return Some(Partitioning);
    }
    ghost var tables := dev.blocks;
    if fault == AfterPartition {
      return Some(Injected);
    }
    var ok := Format(dev, p.rootStart, p.rootBlocks);
    if !ok {
      return Some(FormatFailed);
    }
    if fault == AfterFormat {
      return Some(Injected);
    }
    FreshRoot(tables, dev.blocks, p);
    TablesKept(tables, dev.blocks, p);
    return None;
  }

  /** Partition, format and copy. */
  method WriteVolume(dev: Drive, p: Plan, fault: Fault) returns (r: Option<InstallError>)
    requires dev.Valid() && dev.size == BLOCK_SIZE && !dev.readonly && PlanOk(p, |dev.blocks|)
    modifies dev
    ensures dev.Valid() && |dev.blocks| == old(|dev.blocks|)
    ensures forall i | 34 <= i < ESP_START :: dev.blocks[i] == old(dev.blocks)[i]
    ensures dev.faults >= old(dev.faults) && (r.None? ==> dev.faults == old(dev.faults))
    ensures r.None? ==>
      && GuidsDiffer(p) && fault !in {AfterPartition, AfterFormat, AfterCopy}
      && CheckDevice(BLOCK_SIZE, |dev.blocks|).Ok?
      && Gpt.Published(dev.blocks, BLOCK_SIZE, p.diskGuid, p.specs) && Mountable(dev.blocks, p) && Copied(dev.blocks, p)
    ensures r.Some? ==>
      !GuidsDiffer(p) || fault in {AfterPartition, AfterFormat, AfterCopy} || dev.faults > old(dev.faults)
  {
    hide Gpt.Published, GuidsDiffer, Mountable, Copied, Cut, Flat;
    r := MakeVolume(dev, p, fault);
    if r.Some? {
      return;
    }
    ghost var volume := dev.blocks;
    CutIs(p.payload, BLOCK_SIZE, |p.payload| / BLOCK_SIZE);
    var ok := dev.Write(ESP_START, Cut(p.payload, BLOCK_SIZE));
    if !ok {
      return Some(WriteFailed);
    }
    if fault == AfterCopy {
      return Some(Injected);
    }
    TablesKept(volume, dev.blocks, p);
    RootKept(volume, dev.blocks, p);
    PayloadCopied(dev.blocks, p);
    return None;
  }

  lemma FreshRoot(before: Sectors, after: Sectors, p: Plan)
    requires Sized(before, BLOCK_SIZE) && Sized(after, BLOCK_SIZE) && |before| == |after| && PlanOk(p, |after|)
    requires Formattable(BLOCK_SIZE, |after|, p.rootStart, p.rootBlocks)
    requires FsRuns.Publishable(Derive(p.rootBlocks), FsHistory.FormatMeta(Derive(p.rootBlocks)))
    requires Part(after, p.rootStart, p.rootBlocks) ==
      FsOps.Apply(Part(before, p.rootStart, p.rootBlocks), FsHistory.FormatWrites(Derive(p.rootBlocks)))
    ensures Mountable(after, p)
  {
    hide Derive, FsHistory.FormatMeta, FsHistory.FormatWrites, FsOps.Apply, FsCheck.LoadPartition, FsRuns.Publishable;
    FormattedMounts(Part(before, p.rootStart, p.rootBlocks), p.rootBlocks);
  }

  lemma RootKept(a: Sectors, b: Sectors, p: Plan)
    requires Sized(a, BLOCK_SIZE) && Sized(b, BLOCK_SIZE) && PlanOk(p, |a|) && Same(a, b, ESP_START, p.rootStart)
    requires Mountable(a, p)
    ensures Mountable(b, p)
  {
    hide FsCheck.LoadPartition, Derive;
    assert a[p.rootStart..p.rootStart + p.rootBlocks] == b[p.rootStart..p.rootStart + p.rootBlocks];
  }

  lemma PayloadCopied(disk: Sectors, p: Plan)
    requires PlanOk(p, |disk|) && Flat(Cut(p.payload, BLOCK_SIZE)) == p.payload
    requires disk[ESP_START..ESP_START + |p.payload| / BLOCK_SIZE] == Cut(p.payload, BLOCK_SIZE)
    ensures Copied(disk, p)
  {
    hide Flat, Cut;
  }

  /** The destructive half. */
  method Commit(dev: Drive, p: Plan, fault: Fault) returns (r: Option<InstallError>)
    requires dev.Valid() && dev.size == BLOCK_SIZE && !dev.readonly && PlanOk(p, |dev.blocks|)
    modifies dev
    ensures dev.Valid() && |dev.blocks| == old(|dev.blocks|)
    ensures forall i | 34 <= i < ESP_START :: dev.blocks[i] == old(dev.blocks)[i]
    ensures r.None? ==> fault == NoFault && Installed(dev.blocks, p)
    ensures r.Some? ==>
      !GuidsDiffer(p) || Oversized(p.bios) || NoSecondHalf(p.bios) || fault != NoFault || dev.faults > old(dev.faults)
    ensures NoSecondHalf(p.bios) ==> r.Some?
    ensures dev.faults >= old(dev.faults)
  {
    hide Gpt.Published, GuidsDiffer, Mountable, Copied, Checks, Oversized, NoSecondHalf, Embedded, ReadTable,
         CheckDevice;
    r := WriteVolume(dev, p, fault);
    if r.Some? {
      return;
    }
    ghost var volume := dev.blocks;
    ChecksPass(volume, p);
    var ok := VerifyInstall(dev, p);
    if !ok {
      return Some(VerifyFailed);
    }
    r := InstallBios(dev, p.bios, p.diskGuid, p.specs);
    if r.Some? {
      return;
    }
    DataKept(volume, dev.blocks, p);
    InstalledReads(dev.blocks, p);
    if fault == AfterBootConfig {
      return Some(Injected);
    }
    ok := SyncPhase(dev);
    if !ok {
      return Some(SyncFailed);
    }
  }

  /** An installed disk reads back as its two partitions, both headers agree
      with their entries, and following the boot record gives the boot image. */
  lemma InstalledReads(disk: Sectors, p: Plan)
    requires Sized(disk, BLOCK_SIZE) && PlanOk(p, |disk|) && Installed(disk, p)
    ensures ReadTable(disk, BLOCK_SIZE) == Ok(Table(p.diskGuid, 34, |disk| - 34, Listed(p.specs)))
    ensures Bios.Consistent(disk, 1) && Bios.Consistent(disk, |disk| - 1)
    ensures disk[0][510..512] == [0x55, 0xaa]
    ensures (|disk| * BLOCK_SIZE <= 0x1_0000_0000_0000_0000 ==> Boots(disk, p.bios))
    ensures RootClean(disk, p)
  {
    hide Boots, Gpt.Refusal, Embedded, ReadTable, Flat, FsCheck.LoadPartition, Derive, FsHistory.FormatMeta,
         Bios.Consistent, StagesOf;
    PlanWritable(p, |disk|);
    StageSizes(p.bios);
    EmbeddedReads(disk, p.diskGuid, p.specs, p.bios);
    RecordSigned(disk, p);
    if |disk| * BLOCK_SIZE <= 0x1_0000_0000_0000_0000 {
      BootLoads(disk, p.diskGuid, p.specs, p.bios);
    }
  }

  lemma RecordSigned(disk: Sectors, p: Plan)
    requires Sized(disk, BLOCK_SIZE) && PlanOk(p, |disk|) && !Oversized(p.bios)
    requires Embedded(disk, p.diskGuid, p.specs, p.bios)
    ensures disk[0][510..512] == [0x55, 0xaa]
  {
    hide Flat, HeaderBlock, BootRecord, Gpt.ProtectiveMbr, EntryRun, StagesOf, StageA, StageB;
    StageSizes(p.bios);
    RecordSlice(Gpt.ProtectiveMbr(BLOCK_SIZE, |disk|), p.bios, StagesOf(p.bios), |disk|, 510, 512);
  }

  /** Writes both snapshots back, the second even if the first failed. */
  method Rollback(dev: Drive, front: Sectors, backLba: nat, back: Sectors) returns (restored: bool)
    requires dev.Valid() && Sized(front, dev.size) && Sized(back, dev.size) && front != [] && back != []
    requires |front| <= backLba && backLba + |back| == |dev.blocks|
    modifies dev
    ensures dev.Valid() && |dev.blocks| == old(|dev.blocks|)
    ensures Same(old(dev.blocks)[..backLba], dev.blocks[..backLba], 0, |front|)
    ensures restored ==> dev.blocks[..|front|] == front && dev.blocks[backLba..] == back
    ensures if restored then dev.faults == old(dev.faults) else dev.faults > old(dev.faults)
  {
    var frontOk := dev.Write(0, front);
    ghost var first := dev.blocks;
    var backOk := dev.Write(backLba, back);
    assert dev.blocks[..|front|] == first[..|front|] == first[0..0 + |front|];
    assert dev.blocks[backLba..] == dev.blocks[backLba..backLba + |back|];
    return frontOk && backOk;
  }

  datatype Outcome = Done(rootStart: nat, rootBlocks: nat) | Failed(error: InstallError)

  /** The whole transaction, for any device behaviour and any injected fault:
      blocks 34 to 2047 never change; a failure whose restore writes land leaves
      everything outside the data area as it was; success means installed; and
      only a refused plan, an oversized boot image or one of exactly two blocks,
      equal partition identifiers, an injected fault or a failing device can keep
      it from succeeding. */
  method RunTransaction(dev: Drive, inp: Inputs, fault: Fault) returns (r: Outcome, restored: bool)
    requires dev.Valid()
    modifies dev
    ensures dev.Valid() && |dev.blocks| == old(|dev.blocks|)
    ensures forall i | 34 <= i < ESP_START && i < |dev.blocks| :: dev.blocks[i] == old(dev.blocks)[i]
    ensures r.Failed? && restored ==>
      forall i | 0 <= i < |dev.blocks| && !(ESP_START <= i <= |dev.blocks| - TRAILING) ::
        dev.blocks[i] == old(dev.blocks)[i]
    ensures r.Failed? && !restored ==> dev.faults > old(dev.faults)
    ensures var planned := MakePlan(dev.size, |dev.blocks|, dev.readonly, inp);
      && (planned.Rejected? ==> r == Failed(planned.error) && dev.blocks == old(dev.blocks))
      && (planned.Accepted? ==> PlanOk(planned.plan, |dev.blocks|) && dev.size == BLOCK_SIZE)
      && (r.Done? ==> planned.Accepted? && Installed(dev.blocks, planned.plan))
      && (r.Done? ==> r == Done(planned.plan.rootStart, planned.plan.rootBlocks))
      && (planned.Accepted? && GuidsDiffer(planned.plan) && !Oversized(planned.plan.bios)
          && !NoSecondHalf(planned.plan.bios) && fault == NoFault && dev.faults == old(dev.faults) ==>
            r.Done?)
      && (planned.Accepted? && NoSecondHalf(planned.plan.bios) ==> r.Failed?)
  {
    hide Installed, GuidsDiffer, Oversized, NoSecondHalf, MakePlan;
    var planned := MakePlan(dev.size, |dev.blocks|, dev.readonly, inp);
    if planned.Rejected? {
      return Failed(planned.error), true;
    }
    PlanShape(dev.size, |dev.blocks|, dev.readonly, inp);
    var p := planned.plan;
    var n := |dev.blocks|;
    var front := dev.Read(0, TRAILING);
    if front.None? {
      return Failed(SnapshotFailed), true;
    }
    var back := dev.Read(n - (TRAILING - 1), TRAILING - 1);
    if back.None? {
      return Failed(SnapshotFailed), true;
    }
    var error := Commit(dev, p, fault);
    if error.None? {
      return Done(p.rootStart, p.rootBlocks), true;
    }
    r := Failed(error.value);
    ghost var failed := dev.blocks;
    restored := Rollback(dev, front.value, n - (TRAILING - 1), back.value);
    RolledBack(old(dev.blocks), failed, dev.blocks, restored);
  }

  lemma RolledBack(before: Sectors, failed: Sectors, after: Sectors, restored: bool)
    requires |before| == |failed| == |after| >= ESP_START + TRAILING
    requires forall i | 34 <= i < ESP_START :: failed[i] == before[i]
    requires Same(failed[..|after| - 33], after[..|after| - 33], 0, 34)
    requires restored ==> after[..34] == before[0..34] && after[|after| - 33..] == before[|after| - 33..|after|]
    ensures forall i | 34 <= i < ESP_START :: after[i] == before[i]
    ensures restored ==> forall i | 0 <= i < |after| && !(ESP_START <= i <= |after| - TRAILING) :: after[i] == before[i]
  {
    var n := |after|;
    forall i | 34 <= i < ESP_START
      ensures after[i] == before[i]
    {
      assert failed[..n - 33][i] == after[..n - 33][i];
    }
    if restored {
      forall i | 0 <= i < n && !(ESP_START <= i <= n - TRAILING)
        ensures after[i] == before[i]
      {
        if i < 34 {
          assert after[..34][i] == before[0..34][i];
        } else if i >= n - 33 {
          assert after[n - 33..][i - (n - 33)] == before[n - 33..n][i - (n - 33)];
        }
      }
    }
  }
}
