# Dunit OS: verified model of storage, GUI server and memory

A Dafny model of the three stateful cores of the system, with proofs of what
they promise over whole runs. `dafny verify dfyconfig.toml` checks all of it.

**Storage.** DunitFS v2 keeps its metadata in two slots used in turn, each named
by a superblock with a generation and a checksum. `FsFormat`, `FsNode`, `Bitmap`
and `Utf8` are the on-disk formats; `FsAlloc`, `FsTree` and `FsOps` the
operations on values, `FsSpace` what a bitmap can still give; `FsVolume` is the
mounted object with its loops and an ordered log of block writes, each method
proved to do what its value-level operation does. `FsInv`, `FsStep`, `FsData`,
`FsView` and `FsRefine` prove what every call keeps and that files behave as a
map from paths to byte strings. `FsCrash`, `FsRuns` and `FsHistory` prove crash
atomicity: after any history of calls, crashes at any block write and remounts,
exactly the last committed or the currently published metadata is mounted.
`FsDurable` adds the contents: a committed file no call aims at reads the same
through all of it, and `FsTorn` what one reads as after a crash inside a call
that does. `FsMount` says, for every disk, what mounts; `FsAnswers` what every
call answers and where it leaves handles. `FsCheck` covers the checker and the
degraded mount. `GptFormat`, `GptAccept` (which disks read as which table),
`Gpt`, `Bios`, `FsMake` and `Installer` add partition tables (section 5.3 of the
UEFI Specification), the BIOS stages and the installer's transaction over a
device (`Blocks`) that may fail any request and leave anything in the blocks of
a failed write.

**GUI v1 server.** `GuiModel` holds the objects, requests and events and the
request dispatch; `GuiOwn`, `GuiReply`, `GuiDebt` and `GuiSeat` prove what one
request keeps; `GuiRun`, `GuiTrace`, `GuiSafe` and `GuiRuns` lift it to every
run of any number of connections, over the whole event log; `GuiTokens` and
`GuiAnswers` say which packets are granted, from the objects and that log alone;
`GuiServer` is the server object with its loops, valid after every call in that
same sense.

**Memory.** `Pmm` is the frame bitmap, `Vmm` the four-level page tables as a map
of pages with exact frame ownership, `HeapList`, `Heap`, `HeapSearch` and
`KernelHeap` the coalescing heap whose list lives in the free memory itself,
`KernelMemory` that heap growing by runs of frames, `ElfLoad`, `ElfStack` and
`ElfStart` the program loader and the initial stack (section 3.4.1 of the System
V AMD64 psABI).

What the proofs show the code does not do, each with its exact condition:

- A rename of a directory into its own subtree is let through and detaches it.
  The tree is kept if and only if the destination is not below the source
  (`FsTree.RenameTreeIff`; a concrete volume in `FsLimits.RenameCanDetach`).
- A shrink rewrites the kept prefix after freeing the file. It works if and only
  if the kept blocks fit the six lowest free runs of the freed bitmap; otherwise
  the size stays larger than the blocks (`FsStep.ShrinkIff`; a concrete volume
  in `FsLimits.ShrinkCanFail`). All run theorems exclude these two calls only.
- A write that runs out of space takes every block it can reach and keeps them,
  without marking the volume dirty. It leaves the volume as it was if and only
  if there was no such block (`FsStep.WriteIff`; a concrete volume in
  `FsLimits.WriteCanKeepBlocks`). An extension that runs out keeps the whole
  rounds that fit (`FsStep.ExtendIff`, `FsLimits.ExtendCanStop`).
- A partition name survives if and only if it is ASCII, NUL-free and at most 36
  units (`GptFormat.NameKeptIff`, `GptFormat.NamesCanChange`); an argument
  string reads back whole if and only if it has no NUL (`ElfStack.WholeIff`,
  `ElfStack.ArgumentCanBeCut`).
- A page is writable and executable if and only if it is a bare stack page of a
  program that asks for an executable stack (`ElfLoad.WriteXorExecute`,
  `ElfLoad.StackCanRun`).
- A crash during a shrink can show a committed file with its blocks mixed up,
  because the kept prefix is rewritten over blocks that the committed metadata
  still maps. No crash before the commit shows it if and only if each kept block
  that moves onto a block of the file finds its own bytes there
  (`FsTorn.ShrinkTornIff`, a concrete volume in `FsLimits.ShrinkCanTear`).
- The heap's rounding wraps without a check. The search is right if and only if
  it meets no block whose payload would end in the last seven bytes of the
  address space, or whose payload address wraps and whose size alone passes,
  before a block that fits or a checked overflow (`HeapSearch.SearchRightIff`,
  `HeapSearch.SearchCanBeMisled`). Where any block fits it is right.
- A boot image of exactly two blocks passes the plan and always fails to
  install, because the drivers refuse the empty second half
  (`Bios.InstallBios`).
- The one page that ends exactly at 2^64 is never free, because region ends
  saturate (`Pmm.UsableIff`, `Pmm.TopPageLost`).

## Model

| member | source | states |
|---|---|---|
| `Crc.UpdateConcat` | kernel/src/storage/gpt.rs:473-490 | feeding the CRC-32 in two pieces equals feeding the whole, so block-by-block streaming computes the checksum of the concatenation |
| `Crc.Stream.Feed` | kernel/src/storage/gpt.rs:473-485 | the bit loop leaves the state that the bytes fed so far define |
| `Crc.Stream.Finish` | kernel/src/storage/gpt.rs:487-490 | the finished value is the CRC-32 of everything fed |
| `FsFormat.SuperRoundTrip` | kernel/src/fs/dunitfs.rs:149-200 | every superblock decodes to exactly what was encoded, for every geometry a partition can have, including the truncated 32-bit fields |
| `FsNode.NodeRoundTrip` | kernel/src/fs/dunitfs.rs:1096-1171 | a well-formed node decodes from its own entry to itself, under its own checksum |
| `FsNode.DecodeSound` | kernel/src/fs/dunitfs.rs:1120-1171 | whatever bytes an entry holds, a node that decodes is well formed: path, size within the allocated bytes, extents in the data region |
| `FsNode.SerializedParse` | kernel/src/fs/dunitfs.rs:612-623 | every table slot of a serialized image parses to the node that was there, or to unused |
| `Bitmap.UnpackPack` | kernel/src/fs/dunitfs.rs:1174-1191 | packing a set of blocks into a bitmap and unpacking gives the set back |
| `Bitmap.PackUnpack` | kernel/src/fs/dunitfs.rs:1174-1191 | a bitmap is determined by its set of blocks |
| `Bitmap.UnpackPut` | kernel/src/fs/dunitfs.rs:1174-1191 | setting or clearing one bit adds or removes exactly that block |
| `FsAlloc.PhysicalIsIndex` | kernel/src/fs/dunitfs.rs:225-234 | the extent walk is indexing into the concatenation of the extents, and fails exactly past its end |
| `FsAlloc.AllocRunIsFirstFit` | kernel/src/fs/dunitfs.rs:1201-1217 | the run found is the lowest free one, as long as asked for unless cut by a used block or the end; none is found exactly when no data block is free |
| `FsAlloc.EnsureCorrect` | kernel/src/fs/dunitfs.rs:696-724 | growth that succeeds gives max(have, needed) blocks; earlier logical blocks keep their physical block in success and in failure; the added blocks were free and distinct |
| `FsSpace.EnsureIff` | kernel/src/fs/dunitfs.rs:696-724 | growth succeeds exactly when the blocks needed are at most those the file has plus those the bitmap can still give it: its last extent continued and the lowest free runs, up to six extents; a failure takes all of those |
| `FsSpace.GrowTakes` | kernel/src/fs/dunitfs.rs:708-723 | the growing loop takes the smaller of what is asked and what the bitmap can give, and leaves the rest to give |
| `FsSpace.FailedGrowthIff` | kernel/src/fs/dunitfs.rs:696-724 | a failed growth changes nothing if and only if no data block is free, or six extents are taken and the first free block does not continue the last |
| `FsAlloc.KeepsMapping` | kernel/src/fs/dunitfs.rs:225-234 | extending the block list keeps every earlier mapping |
| `FsAlloc.ReleaseHas` | kernel/src/fs/dunitfs.rs:678-691 | freeing extents clears exactly their blocks |
| `FsTree.AncestorExists` | kernel/src/fs/dunitfs.rs:662-671 | in a volume whose parents exist, every ancestor of a node is an existing directory |
| `FsTree.MovedInjective` | kernel/src/fs/dunitfs.rs:831-848 | re-keying below the source never maps two paths to one |
| `FsTree.RenameUnique` | kernel/src/fs/dunitfs.rs:816-856 | an allowed rename keeps paths unique and clean, even into the own subtree |
| `FsTree.RenameKeepsTree` | kernel/src/fs/dunitfs.rs:816-856 | outside its own subtree, rename keeps every node below an existing directory |
| `FsTree.RenameTreeIff` | kernel/src/fs/dunitfs.rs:816-856 | an allowed rename keeps the tree if and only if the destination is not below the source |
| `FsLimits.RenameCanDetach` | kernel/src/fs/dunitfs.rs:816-856 | two nested directories for which the code lets a rename into the own subtree through and the tree is lost |
| `FsInv.GrowKeepsAlloc` | kernel/src/fs/dunitfs.rs:696-724 | growing a file, fully or until space runs out, keeps the bitmap exact and all extents disjoint |
| `FsInv.ReleaseKeepsAlloc` | kernel/src/fs/dunitfs.rs:678-691 | freeing a file keeps the bitmap exact and all extents disjoint |
| `FsInv.CreateOk` | kernel/src/fs/dunitfs.rs:783-811 | creating keeps every volume invariant, accepted or refused |
| `FsInv.RemoveOk` | kernel/src/fs/dunitfs.rs:1044-1056 | removing keeps every volume invariant |
| `FsInv.TruncateOk` | kernel/src/fs/dunitfs.rs:1062-1075 | truncating keeps every volume invariant |
| `FsInv.RenameOk` | kernel/src/fs/dunitfs.rs:816-856 | renaming outside the own subtree keeps every volume invariant |
| `FsInv.WriteKeepsOk` | kernel/src/fs/dunitfs.rs:750-781 | writing at any offset keeps every volume invariant, also when space runs out |
| `FsData.LoopSplices` | kernel/src/fs/dunitfs.rs:750-781 | the sector loop with partial-sector read-modify-write changes exactly the written byte range of the file, across extents |
| `FsData.LoopTargets` | kernel/src/fs/dunitfs.rs:750-781 | it writes only blocks of that file |
| `FsData.WriteOverlays` | kernel/src/fs/dunitfs.rs:750-781 | a write overlays its bytes on the old content |
| `FsData.OverlaidIsSplice` | kernel/src/fs/dunitfs.rs:767-772 | at offsets up to the size an overlay is a splice |
| `FsData.OverlaidIsGap` | kernel/src/fs/dunitfs.rs:767-772 | past the end it keeps the old bytes and the written ones; only the gap between is left open |
| `FsData.GrowKeepsContent` | kernel/src/fs/dunitfs.rs:696-724 | growing the extents does not change what the file reads as |
| `FsData.UntouchedContent` | kernel/src/fs/dunitfs.rs:726-745 | writes to other blocks do not change what a file reads as |
| `FsStep.ShrinkIff` | kernel/src/fs/dunitfs.rs:963-1010 | a shrink succeeds, and keeps the invariants, if and only if the kept blocks fit the six lowest free runs of the bitmap with the file freed |
| `FsStep.SevenHolesFail` | kernel/src/fs/dunitfs.rs:696-724 | seven one-block holes before the free space defeat any request for seven blocks: the six lowest runs hold six |
| `FsLimits.ShrinkCanFail` | kernel/src/fs/dunitfs.rs:979-994 | a healthy volume on which cutting a file by one block fails and leaves a size larger than its blocks |
| `FsStep.WriteIff` | kernel/src/fs/dunitfs.rs:750-781 | a write succeeds exactly when the volume is writable, the end fits 64 bits and its blocks are within reach; a failure keeps the dirty flag, takes every reachable block, and leaves the volume as it was exactly when there was none to take |
| `FsLimits.WriteCanKeepBlocks` | kernel/src/fs/dunitfs.rs:750-781 | a healthy volume on which a failed write keeps a block for the file without marking the volume dirty |
| `FsStep.ExtendIff` | kernel/src/fs/dunitfs.rs:995-1009 | an extension succeeds exactly when its end is within reach; otherwise it stops at the last whole round that fits, so the file ends there |
| `FsLimits.ExtendCanStop` | kernel/src/fs/dunitfs.rs:995-1009 | a healthy volume on which an extension by two blocks fails and leaves the file one block longer |
| `FsStep.ZeroExtendOk` | kernel/src/fs/dunitfs.rs:995-1009 | extending with zeros keeps the invariants after every round, complete or not |
| `FsStep.MutateOk` | kernel/src/fs/dunitfs.rs:783-1075 | every call outside the two limits keeps the whole invariant: exact bitmap, disjoint extents, unique clean paths, tree, handles on files |
| `FsCrash.LoadStanding` | kernel/src/fs/dunitfs.rs:378-434 | whichever superblock holds the newest generation with a matching slot, that generation is mounted |
| `FsMount.SuperIff` | kernel/src/fs/dunitfs.rs:149-200 | for every block and geometry: a superblock decodes to given values exactly when its bytes are their encoding, outside the padding, under its own checksum |
| `FsMount.EntryIff` | kernel/src/fs/dunitfs.rs:1096-1171 | for every entry: it decodes to a node exactly when its bytes hold that well-formed node under its own checksum, and is unused exactly when its first byte is zero |
| `FsMount.OverlapIff` | kernel/src/fs/dunitfs.rs:1311-1320 | two nodes overlap exactly when they share a block |
| `FsMount.StrictIff` | kernel/src/fs/dunitfs.rs:436-471 | for every slot image: strict loading succeeds exactly when every entry in use holds a node and no two share a path or a block, and then gives exactly those nodes |
| `FsMount.LoadIff` | kernel/src/fs/dunitfs.rs:378-434 | for every disk: unmountable exactly when neither superblock matches its slot, read/write exactly when one of them loads strictly, and the generation mounted is the newest such one, the primary of two equals |
| `FsCrash.SlotReadsBack` | kernel/src/fs/dunitfs.rs:1219-1253 | a slot written block by block reads back as the image |
| `FsCrash.PublishBefore` | kernel/src/fs/dunitfs.rs:576-610 | until its superblock write, a commit leaves the published generation readable |
| `FsCrash.PublishAfter` | kernel/src/fs/dunitfs.rs:576-610 | from the primary superblock write on, the new generation is the one found |
| `FsCrash.TornPrimary` | kernel/src/fs/dunitfs.rs:378-434 | if the primary superblock sector is torn so that it no longer decodes, the mount still returns the previous generation |
| `FsRuns.SlotRoundTrip` | kernel/src/fs/dunitfs.rs:436-471 | every metadata state that may be committed reloads strictly to the same bitmap, nodes and generation |
| `FsRuns.OpWrites` | kernel/src/fs/dunitfs.rs:576-610 | the writes of a call are file data above the metadata region followed by at most one commit |
| `FsRuns.CrashAnywhere` | kernel/src/fs/dunitfs.rs:378-434 | cut after any number of block writes of any call, the disk mounts read/write as exactly the last committed metadata or the one being published |
| `FsRuns.OpKeepsStep` | kernel/src/fs/dunitfs.rs:576-610 | a completed call leaves memory and disk in step, so the next crash is covered too |
| `FsHistory.FormatMounts` | kernel/src/fs/dunitfs.rs:262-301 | a formatted partition mounts read/write as the empty volume |
| `FsHistory.EveryHistory` | kernel/src/fs/dunitfs.rs:378-434 | after any history of calls, crashes at any block write and remounts from a format: mounted read/write, a tree of well-formed nodes, every used data block owned by exactly one node, and a remount gives the metadata last saved |
| `FsHistory.EveryCrash` | kernel/src/fs/dunitfs.rs:576-610 | after any such history, a crash inside any further call mounts the old metadata before the primary superblock write and the new metadata after it, never a mix |
| `FsHistory.PublishedScansClean` | kernel/src/fs/dunitfs.rs:1493-1552 | every committable image scans clean, without a single bitmap error |
| `FsDurable.CutKeeps` | kernel/src/fs/dunitfs.rs:750-781 | cut after any number of its block writes, a call leaves the entry and the bytes of every node it does not aim at |
| `FsDurable.CommitSettles` | kernel/src/fs/dunitfs.rs:576-610 | right after a mount or a commit, memory and the committed metadata have the same nodes |
| `FsDurable.EveryHistoryKeeps` | kernel/src/fs/dunitfs.rs:378-434 | a committed file reads the same at its path after any further history of calls and crashes at any block write, as long as no call aims at it |
| `FsTorn.CrashKeeps` | kernel/src/fs/dunitfs.rs:378-434 | a crash in any call but a write or shrink of the file itself: if the remount has the committed entry, the file reads as at its commit |
| `FsTorn.WriteTorn` | kernel/src/fs/dunitfs.rs:750-781 | after a crash in a write the remounted file is the committed one with a prefix of the bytes written over it, so outside the range it reads as at the commit |
| `FsTorn.ShrinkTornIff` | kernel/src/fs/dunitfs.rs:979-994 | a crash before the commit of a shrink shows the committed file, wherever it falls, if and only if every kept block that moves onto a block of the file finds there the bytes it brings |
| `FsLimits.ShrinkCanTear` | kernel/src/fs/dunitfs.rs:979-994 | a healthy volume on which a crash during a shrink makes the second block of a committed file read as the first |
| `FsView.WriteContent` | kernel/src/fs/dunitfs.rs:750-781 | after a successful write the file reads as the overlay and every other file reads as before |
| `FsView.FailedContent` | kernel/src/fs/dunitfs.rs:750-781 | a write that runs out of space writes nothing and changes no content |
| `FsView.ZeroContent` | kernel/src/fs/dunitfs.rs:995-1009 | an extension appends zeros only, as many as asked for when it succeeds |
| `FsView.ShrinkContent` | kernel/src/fs/dunitfs.rs:979-994 | a successful shrink leaves exactly the kept prefix |
| `FsRefine.RenamedLookup` | kernel/src/fs/dunitfs.rs:816-856 | after a rename, looking up a path finds what was at its origin below the source, nothing below the source itself, and everything else unchanged |
| `FsRefine.CreateRefines` | kernel/src/fs/dunitfs.rs:783-811 | create is insertion of an empty entry in the map from paths to contents |
| `FsRefine.RemoveRefines` | kernel/src/fs/dunitfs.rs:1044-1056 | remove is deletion of one entry |
| `FsRefine.TruncateRefines` | kernel/src/fs/dunitfs.rs:1062-1075 | truncate sets one content to empty |
| `FsRefine.RenameRefines` | kernel/src/fs/dunitfs.rs:816-856 | an allowed rename re-keys a subtree and changes nothing else; when it is allowed is FsAnswers.AnswerIff |
| `FsRefine.WriteRefines` | kernel/src/fs/dunitfs.rs:907-921 | write at the handle's offset (end when appending) overlays one content |
| `FsRefine.FtruncateRefines` | kernel/src/fs/dunitfs.rs:963-1010 | ftruncate is take or zero-extend of one content |
| `FsRefine.ReadRefines` | kernel/src/fs/dunitfs.rs:895-905 | read returns the slice of the content at the handle's offset and changes no content |
| `FsRefine.CommitKeepsDocs` | kernel/src/fs/dunitfs.rs:576-610 | committing changes no file's content |
| `FsRefine.OperationRefines` | kernel/src/fs/dunitfs.rs:783-1075 | for every call, its complete write list included: success does exactly its step on the map from paths to contents, refusal leaves every entry as it was or, for an interrupted extension, zero-extended |
| `FsDurable.EveryCallRefines` | kernel/src/fs/dunitfs.rs:783-1075 | at every point of every history of calls, crashes and remounts, a call does its step on the map from paths to contents |
| `FsAnswers.CleanIff` | kernel/src/fs/dunitfs.rs:647-649 | cleaning a path takes off the slashes at both ends and nothing else |
| `FsAnswers.CheckAnswer` | kernel/src/fs/dunitfs.rs:816-856 | a rename is refused exactly when the source is missing, the new path is empty or longer than 120, taken or without a directory above it, or a path below would become longer than 120, in that order |
| `FsAnswers.AnswerIff` | kernel/src/fs/dunitfs.rs:783-1075 | every call succeeds, with what value, or fails, with which error, exactly as a table over the map from paths to contents, the handles and the blocks within reach says, read-only mounts included |
| `FsAnswers.EveryAnswer` | kernel/src/fs/dunitfs.rs:783-1075 | so it does after every history of calls, crashes and remounts |
| `FsAnswers.HandlesIff` | kernel/src/fs/dunitfs.rs:860-947 | which handles each call leaves: open adds one at offset 0, close drops one, read and write move theirs past the bytes, seek sets it from start, offset or size, nothing else moves |
| `FsAnswers.ReadsContinue` | kernel/src/fs/dunitfs.rs:895-905 | two reads in a row return consecutive slices of the file |
| `FsCheck.DecodeTable` | kernel/src/fs/dunitfs.rs:1504-1522 | the scan counts decodable and corrupt entries as the parser classifies them |
| `FsCheck.CountClashes` | kernel/src/fs/dunitfs.rs:1523-1538 | duplicate paths and overlapping extents are counted pair by pair |
| `FsCheck.ClaimBlocks` | kernel/src/fs/dunitfs.rs:1539-1545 | the expected set is the blocks the nodes claim |
| `FsCheck.CountUnmarked` | kernel/src/fs/dunitfs.rs:1546-1550 | bitmap errors are the claimed data blocks that are not marked |
| `FsCheck.ScanSlot` | kernel/src/fs/dunitfs.rs:1493-1552 | the loops compute the value-level scan |
| `FsCheck.CleanIffStrict` | kernel/src/fs/dunitfs.rs:1484-1486 | a scan is clean exactly when strict loading of that image succeeds |
| `FsCheck.Fsck` | kernel/src/fs/dunitfs.rs:1558-1625 | on every disk image: Clean iff one of the two superblocks decodes, matches the checksum of its slot and the slot loads strictly; Unrecoverable iff neither matches its slot; Degraded otherwise; the verdict and the generation, that of the newest such superblock and the primary of two equals, are those of the mount |
| `FsCheck.DropSettles` | kernel/src/fs/dunitfs.rs:503-522 | the dropping pass keeps a node exactly when no earlier kept node conflicts with it |
| `FsCheck.DegradedKeeps` | kernel/src/fs/dunitfs.rs:478-538 | from any image the kept nodes are consistent, and each dropped one is corrupt or conflicts with a kept node of lower index |
| `FsCheck.NothingDropped` | kernel/src/fs/dunitfs.rs:478-538 | when strict loading would succeed, the degraded mount drops nothing |
| `FsCheck.ReadOnlyStep` | kernel/src/fs/dunitfs.rs:565-570 | on a read-only mount no call writes a block or changes nodes or bitmap |
| `FsCheck.DegradedNeverWrites` | kernel/src/fs/dunitfs.rs:478-570 | no sequence of calls on a degraded mount ever writes a disk block |
| `FsVolume.DunitFs.SoundReady` | kernel/src/fs/dunitfs.rs:378-434 | a sound volume serves every permitted call to its end, and its device would remount as exactly what was last committed |
| `FsVolume.DunitFs.MarkUsed` | kernel/src/fs/dunitfs.rs:1193-1197 | marks exactly the blocks of a run |
| `FsVolume.DunitFs.MarkFree` | kernel/src/fs/dunitfs.rs:1186-1191 | clears exactly the blocks of a run |
| `FsVolume.DunitFs.AllocRun` | kernel/src/fs/dunitfs.rs:1201-1217 | the bitmap scan returns the specified first-fit run |
| `FsVolume.DunitFs.FreeExtents` | kernel/src/fs/dunitfs.rs:678-691 | frees the extents and empties the list |
| `FsVolume.DunitFs.EnsureBlocks` | kernel/src/fs/dunitfs.rs:696-724 | the growing loop gives the specified bitmap and extents |
| `FsVolume.DunitFs.ReadNode` | kernel/src/fs/dunitfs.rs:726-745 | the sector loop returns the slice of the content |
| `FsVolume.DunitFs.WriteSectors` | kernel/src/fs/dunitfs.rs:757-775 | issues exactly the specified block writes, in order |
| `FsVolume.DunitFs.WriteNode` | kernel/src/fs/dunitfs.rs:750-781 | same new volume, same writes, same result as the value-level write |
| `FsVolume.DunitFs.WriteSlot` | kernel/src/fs/dunitfs.rs:1219-1235 | issues the slot writes in order |
| `FsVolume.DunitFs.Commit` | kernel/src/fs/dunitfs.rs:576-610 | serializes, writes the inactive slot, then both superblocks, and only then advances; nothing when clean or read-only |
| `FsVolume.DunitFs.Create` | kernel/src/fs/dunitfs.rs:783-811 | does what the value-level create does, with the same writes, and keeps the volume sound; the result is the one the table of answers gives |
| `FsVolume.DunitFs.Remove` | kernel/src/fs/dunitfs.rs:1044-1056 | does what the value-level remove does, with the same writes, and keeps the volume sound; the result is the one the table of answers gives |
| `FsVolume.DunitFs.Truncate` | kernel/src/fs/dunitfs.rs:1062-1075 | does what the value-level truncate does, with the same writes, and keeps the volume sound; the result is the one the table of answers gives |
| `FsVolume.DunitFs.Rename` | kernel/src/fs/dunitfs.rs:816-856 | does what the value-level rename does, with the same writes, and keeps the volume sound outside the own subtree; it succeeds, or fails with which error, exactly as the table of answers says |
| `FsVolume.DunitFs.RewritePaths` | kernel/src/fs/dunitfs.rs:831-852 | the loop re-keys exactly the source and its descendants |
| `FsVolume.DunitFs.Read` | kernel/src/fs/dunitfs.rs:895-905 | returns the slice and moves the handle, or fails as the table of answers says |
| `FsVolume.DunitFs.WriteTo` | kernel/src/fs/dunitfs.rs:907-921 | writes at the handle's offset and moves it past the bytes, keeps the volume sound, and answers as the table of answers says |
| `FsVolume.DunitFs.ZeroFill` | kernel/src/fs/dunitfs.rs:995-1009 | extends in rounds of at most one block, stopping at the first failure |
| `FsVolume.DunitFs.Ftruncate` | kernel/src/fs/dunitfs.rs:963-1010 | does what the value-level ftruncate does, with the same writes and the answer of the table, and keeps the volume sound when the kept prefix fits |
| `FsVolume.DunitFs.Fsync` | kernel/src/fs/dunitfs.rs:958-961 | commits, and keeps the volume sound |
| `FsVolume.DunitFs.Close` | kernel/src/fs/dunitfs.rs:923-928 | drops the handle and commits, and keeps the volume sound |
| `GuiOwn.Ownership` | protocols/gui-v1/src/server.rs:477-533 | under the connection invariant a buffer is Pending iff one surface reserves it, Busy iff one has it committed with the same token, never both |
| `GuiReply.DispatchOk` | protocols/gui-v1/src/server.rs:347-685 | every request, accepted or refused, keeps ownership, object counts, backing bytes and limits |
| `GuiDebt.DispatchBalanced` | protocols/gui-v1/src/server.rs:534-685 | every request pays, keeps open or opens exactly the releases and frame callbacks it owes |
| `GuiSeat.DispatchFollows` | protocols/gui-v1/src/server.rs:419-451 | the events a request emits keep ENTER and LEAVE matched, and the seat only loses the surface the request concerns |
| `GuiSeat.RefusedChangesNothing` | protocols/gui-v1/src/server.rs:347-685 | a refused request changes neither objects nor seat nor the identifier counter |
| `GuiSeat.MappedKept` | protocols/gui-v1/src/server.rs:607-640 | a surface stays mapped unless this request unmaps or destroys it, and then the seat drops it |
| `GuiSafe.ConnectStep` | protocols/gui-v1/src/server.rs:740-750 | connecting keeps the server invariant |
| `GuiSafe.PeerGoneStep` | protocols/gui-v1/src/server.rs:752-756 | a peer going away keeps the server invariant |
| `GuiSafe.TickStep` | protocols/gui-v1/src/server.rs:767-784 | the clock and handshake timeouts keep the server invariant |
| `GuiSafe.OverflowStep` | protocols/gui-v1/src/server.rs:914-927 | tearing a connection down on held-input overflow keeps the server invariant |
| `GuiSafe.CompositeStep` | protocols/gui-v1/src/server.rs:931-959 | presenting every connection's frames keeps the server invariant |
| `GuiSafe.ReconfigureStep` | protocols/gui-v1/src/server.rs:964-985 | reconfiguring a surface keeps the server invariant |
| `GuiSafe.DeliverStep` | protocols/gui-v1/src/server.rs:791-813 | delivering any packet, sound, refused or fatal, keeps the server invariant |
| `GuiRuns.StepKeeps` | protocols/gui-v1/src/server.rs:740-1128 | every input keeps the server invariant over the whole event log |
| `GuiRuns.RunKeeps` | protocols/gui-v1/src/server.rs:723-1128 | the invariant holds after every run |
| `GuiRuns.EveryRunOwnership` | protocols/gui-v1/src/server.rs:477-685 | in every reachable state: exact counts within limits, Pending iff exactly one surface reserves, Busy iff exactly one has it committed with the same token |
| `GuiRuns.EveryRunPays` | protocols/gui-v1/src/server.rs:534-685 | over every run, accepted attaches of a buffer equal its releases plus one if it is still held, each frame callback is owed at most once and is done or pending, and pending implies mapped |
| `GuiRuns.EveryRunTokens` | protocols/gui-v1/src/server.rs:964-985 | in every reachable state a surface's latest token is the serial of the last CONFIGURE sent for it |
| `GuiTokens.StepTokens` | protocols/gui-v1/src/server.rs:740-1128 | every input keeps serials rising, sizes as announced and acknowledgements in step with the granted ACK_CONFIGUREs |
| `GuiTokens.EveryRunSerials` | protocols/gui-v1/src/server.rs:791-813 | over every run the serials sent on a connection only grow |
| `GuiTokens.EveryRunInStep` | protocols/gui-v1/src/server.rs:463-476 | in every reachable state a surface has the token, size and scale of the last CONFIGURE sent for it, and the token counts as acknowledged exactly when an ACK_CONFIGURE of it was granted |
| `GuiAnswers.StageIs` | protocols/gui-v1/src/server.rs:818-888 | the screening stages: which error, fatal or not, for the first of framing, attachment, version, serial, opcode, state and payload that is wrong, and passed exactly when none is |
| `GuiAnswers.CommitChecked` | protocols/gui-v1/src/server.rs:586-650 | the guards of COMMIT over the history: callback flag, surface, pending attach, last CONFIGURE acknowledged, callback free, announced size times scale and format, in that order |
| `GuiAnswers.GrantsIff` | protocols/gui-v1/src/server.rs:347-685 | no condition of a request fails exactly when all hold, request by request and in numbers |
| `GuiAnswers.AnswerIff` | protocols/gui-v1/src/server.rs:818-888 | every packet on a live connection gets RESULT or WELCOME exactly when it passes the screening and its request meets its conditions on objects and history, and else the one error of the first it fails |
| `GuiAnswers.GrantedEffect` | protocols/gui-v1/src/server.rs:347-685 | what a granted packet does to the objects, the identifier counter, the features and the phase, and that callbacks it ends are discarded now |
| `GuiAnswers.CompositePresents` | protocols/gui-v1/src/server.rs:931-959 | a composition tick sends presented callbacks only, at the current time |
| `GuiAnswers.EveryAnswer` | protocols/gui-v1/src/server.rs:791-888 | after every run, any further packet is answered and takes effect so |
| `GuiRuns.EveryRunSeat` | protocols/gui-v1/src/server.rs:293-341 | in every run focus and grab name mapped surfaces on active connections, grab is set iff a button is held and is then the pointer focus, and the whole event log replays as matched ENTER and LEAVE brackets with key releases only for keys pressed inside |
| `GuiRuns.RecoverableErrorIsInert` | protocols/gui-v1/src/server.rs:791-813 | a packet answered by a non-fatal error leaves every object and the seat unchanged |
| `GuiRuns.LeaveOrder` | protocols/gui-v1/src/server.rs:419-451 | the LEAVE events of a destroyed surface precede its RESULT; those of an unmapped one come with its commit |
| `GuiServer.Server.constructor` | protocols/gui-v1/src/server.rs:723-738 | a server without connections satisfies the invariant |
| `GuiServer.Server.Promises` | protocols/gui-v1/src/server.rs:723-1128 | a valid server promises each client what every run does: ownership, debts paid or open, rising serials, the token, size and acknowledgement of the last CONFIGURE, matched brackets |
| `GuiServer.Server.Connect` | protocols/gui-v1/src/server.rs:740-750 | keeps the invariant; a new connection under a number in no earlier history and no other connection, refused exactly when 64 are connected |
| `GuiServer.Server.DisconnectPeer` | protocols/gui-v1/src/server.rs:752-756 | keeps the invariant; removes that connection and nothing else, and no focus or grab is left on it |
| `GuiServer.Server.Tick` | protocols/gui-v1/src/server.rs:767-784 | keeps the invariant; the connections returned are exactly those dropped, which are exactly those without HELLO at the time limit; all others are unchanged |
| `GuiServer.Server.Deliver` | protocols/gui-v1/src/server.rs:791-813 | keeps the invariant; grants a packet exactly when it passes the screening and its request meets its conditions on the sender's objects and the history so far, with the effect and events of that request, and else sends the one error of the first condition it fails; answers only its sender on consecutive serials, changes no other connection, and a non-fatal error leaves every object and the seat as they were |
| `GuiServer.Server.CompleteFrames` | protocols/gui-v1/src/server.rs:931-959 | completes the pending frames of one connection in object order |
| `GuiServer.Server.Composite` | protocols/gui-v1/src/server.rs:931-959 | keeps the invariant; every pending callback of every active connection is presented and nothing else changes |
| `GuiServer.Server.Reconfigure` | protocols/gui-v1/src/server.rs:964-985 | keeps the invariant; one CONFIGURE goes out, whose serial is the new token, exactly for a good size on a surface of an active connection |
| `GuiServer.Server.SetPointerFocus` | protocols/gui-v1/src/server.rs:991-1010 | keeps the invariant; the focus becomes the target if it is mapped and else nothing, with LEAVE then ENTER, and a grab pins it |
| `GuiServer.Server.PointerMotion` | protocols/gui-v1/src/server.rs:1012-1021 | keeps the invariant; exactly the focused surface gets the event, and nothing else changes |
| `GuiServer.Server.PointerButton` | protocols/gui-v1/src/server.rs:1023-1045 | keeps the invariant; exactly the focused surface gets the event, and a button is held afterwards exactly when it was pressed |
| `GuiServer.Server.PointerAxis` | protocols/gui-v1/src/server.rs:1047-1057 | keeps the invariant; exactly the focused surface gets the event, and nothing else changes |
| `GuiServer.Server.SetKeyboardFocus` | protocols/gui-v1/src/server.rs:1059-1078 | keeps the invariant; the focus becomes the target if it is mapped and else nothing, with LEAVE then ENTER and no key held |
| `GuiServer.Server.Key` | protocols/gui-v1/src/server.rs:1080-1115 | keeps the invariant; the focused surface gets the event except for releases and repeats of keys not held, and one held key too many closes its connection with a fatal error instead |
| `GuiServer.Server.TextInput` | protocols/gui-v1/src/server.rs:1117-1128 | keeps the invariant; text of 1 to 160 bytes goes to the focused surface, other text to nobody |
| `Pmm.WithinIsContainment` | kernel/src/memory/pmm.rs:87-111 | the saturating test holds exactly for pages wholly inside a usable region that end below 2^64 |
| `Pmm.UsableIff` | kernel/src/memory/pmm.rs:87-111 | a page becomes free exactly when it lies wholly inside a usable region and does not end at 2^64 |
| `Pmm.TopPageLost` | kernel/src/memory/pmm.rs:87-111 | a usable region of two pages up to 2^64 of which only the lower becomes free |
| `Pmm.Interior` | kernel/src/memory/pmm.rs:87-111 | the aligned interior of a region, saturation included, holds exactly the aligned pages within |
| `Pmm.FrameAllocator.constructor` | kernel/src/memory/pmm.rs:44-59 | every frame free and counted |
| `Pmm.FrameAllocator.ReserveAll` | kernel/src/memory/pmm.rs:77-85 | no frame free |
| `Pmm.FrameAllocator.AllocFrame` | kernel/src/memory/pmm.rs:113-139 | returns the lowest free frame and takes only it; fails exactly when none is free |
| `Pmm.FrameAllocator.AllocContiguous` | kernel/src/memory/pmm.rs:141-185 | returns the lowest-starting run of the length asked for and takes only it; fails exactly when no such run exists or zero is asked for |
| `Pmm.FrameAllocator.FreeFrame` | kernel/src/memory/pmm.rs:187-209 | frees exactly the frame of an address inside the pool, once |
| `Pmm.FrameAllocator.MarkRegionFree` | kernel/src/memory/pmm.rs:87-111 | frees exactly the pages within the region and counts the newly freed |
| `Pmm.FrameAllocator.MarkUsable` | kernel/src/memory/pmm.rs:332-346 | over all regions exactly the usable pages become free, overlaps counted once |
| `Pmm.UsablePoolBounds` | kernel/src/memory/pmm.rs:266-281 | none are given exactly when no region holds a usable page; otherwise they are the lowest usable page and the end of the highest |
| `Pmm.Init` | kernel/src/memory/pmm.rs:283-350 | fails exactly when there is no usable page or the bitmap for the span of usable pages does not fit its storage; otherwise the free frames are exactly the usable pages and the counter is their number |
| `KernelMemory.RunSuppliable` | kernel/src/allocator.rs:165-189 | a run of free frames seen through the direct map is memory that no free or live block of the heap has |
| `KernelMemory.FramedHeap.Grow` | kernel/src/allocator.rs:165-189 | keeps the heap clear of the free frames; fails exactly when the size overflows or no run of free frames is long enough, and then nothing changes |
| `KernelMemory.FramedHeap.Alloc` | kernel/src/allocator.rs:242-257 | if the first search is not misled: keeps the heap, and is non-null exactly when some free block fits or a run of frames for the growth exists; after growing the search is never misled; misled, nothing fits and the heap is left as in AllocFromFreeList |
| `KernelMemory.FramedHeap.Dealloc` | kernel/src/allocator.rs:259-264 | the heap keeps its bytes and stays clear of the free frames |
| `KernelMemory.FramedHeap.TakeFrame` | kernel/src/memory/pmm.rs:113-139 | a frame taken for another purpose leaves the heap clear of the free frames |
| `KernelMemory.FramedHeap.GiveFrame` | kernel/src/memory/pmm.rs:187-209 | a frame without heap bytes may come back at any time |
| `Vmm.IndexIsShift` | kernel/src/memory/vmm.rs:39-57 | the four table indices are the nine-bit fields of the address |
| `Vmm.AddTable` | kernel/src/memory/vmm.rs:337-361 | hanging a zeroed table into an empty slot keeps the tree separated and changes no page |
| `Vmm.PutLeaf` | kernel/src/memory/vmm.rs:270-299 | writing one last-level entry changes exactly that page of the map |
| `Vmm.AddressSpace.MappedReachable` | kernel/src/memory/vmm.rs:337-361 | at every level on the way to a mapped page the entry followed is present, writable and open to the user |
| `Vmm.AddressSpace.New` | kernel/src/memory/vmm.rs:151-170 | an empty user half and the kernel's upper half, one frame taken; no frame is lost when it fails |
| `Vmm.AddressSpace.UserPageMapping` | kernel/src/memory/vmm.rs:364-411 | the four-level walk is lookup in the map of pages |
| `Vmm.AddressSpace.EnsureNextTable` | kernel/src/memory/vmm.rs:337-361 | makes a missing table or follows the link; no page changes; on exhaustion nothing does |
| `Vmm.AddressSpace.MapUserFrame` | kernel/src/memory/vmm.rs:270-299 | insertion, refused when the page is taken, misaligned or not a user page; frames stay conserved |
| `Vmm.AddressSpace.MapUserPage` | kernel/src/memory/vmm.rs:203-226 | insertion of a fresh owned frame, given back if mapping fails; a bad address is refused as such, a taken page too, and out of memory is reported only when at most one frame is left |
| `Vmm.AddressSpace.UnmapUserPage` | kernel/src/memory/vmm.rs:231-268 | removal; an owned frame goes back to the free ones |
| `Vmm.AddressSpace.ProtectUserPage` | kernel/src/memory/vmm.rs:301-329 | replaces the flags of one page and keeps its frame |
| `Vmm.AddressSpace.Drop` | kernel/src/memory/vmm.rs:518-529 | returns every owned frame exactly once |
| `Vmm.Life` | kernel/src/memory/vmm.rs:630-645 | creating a space, any sequence of calls on it and dropping it leaves the free frames and all foreign tables as they were |
| `HeapList.InsertSorted` | kernel/src/allocator.rs:66-95 | inserting with coalescing keeps the list sorted, disjoint and fully coalesced |
| `HeapList.InsertCovers` | kernel/src/allocator.rs:66-95 | it covers the old bytes and the new block, nothing else |
| `HeapList.InsertSum` | kernel/src/allocator.rs:66-95 | free bytes grow by exactly the block |
| `Heap.LinkInsert` | kernel/src/allocator.rs:66-95 | linking a node between two others gives the list with the block inserted |
| `Heap.LinkAbsorb` | kernel/src/allocator.rs:66-95 | absorbing the next node gives the list with the two joined |
| `Heap.LinkReplace` | kernel/src/allocator.rs:97-152 | replacing a node by its remainder, or unlinking it, gives that list |
| `Heap.InsertByMerging` | kernel/src/allocator.rs:66-95 | insert, then join right, then join left, is insertion with coalescing |
| `HeapSearch.BigFits` | kernel/src/allocator.rs:97-152 | a block of the requested size plus slack always fits the request, whatever its address |
| `HeapSearch.JudgeIs` | kernel/src/allocator.rs:110-122 | on 64 bits the loop takes a block if and only if it fits or is a false fit, never both, and gives up if and only if the checked sum overflows; so its verdict is right if and only if the block is no false fit |
| `HeapSearch.NoOverflowBefore` | kernel/src/allocator.rs:97-152 | up to a block that fits nothing overflows and no rounding wraps, so the search cannot go wrong before it |
| `HeapSearch.SearchRightIff` | kernel/src/allocator.rs:97-152 | the search finds a block exactly when one fits, and then the first that does, if and only if it reaches no false fit before a block that fits or a checked overflow; otherwise it takes a false fit although nothing fits |
| `HeapSearch.SearchCanBeMisled` | kernel/src/allocator.rs:116-118 | a free block at the end of the kernel image and two layouts, one by size and one by alignment, for which the search takes a block that does not fit |
| `KernelHeap.RoomAfterGrowth` | kernel/src/allocator.rs:242-257 | after the growth an allocation asks for, some free block fits it |
| `KernelHeap.KernelAllocator.constructor` | kernel/src/allocator.rs:54-64 | one bootstrap region, all of it free |
| `KernelHeap.KernelAllocator.AddFreeRegion` | kernel/src/allocator.rs:66-95 | the in-band list becomes the old one with the block inserted and coalesced; no word outside free memory changes |
| `KernelHeap.KernelAllocator.FindFit` | kernel/src/allocator.rs:97-152 | the loop takes the block that the 64-bit search takes: a block is found exactly when one fits if and only if the search is not misled |
| `KernelHeap.KernelAllocator.AllocFromFreeList` | kernel/src/allocator.rs:97-152 | if the search is not misled, non-null exactly when some free block fits; then one aligned block disjoint from all others with its header inside, every other live word kept, bytes conserved; on null nothing changes; misled, nothing fits and it leaves a header no allocation can have, or null with a header at the top of memory |
| `KernelHeap.KernelAllocator.Dealloc` | kernel/src/allocator.rs:154-163 | the block returns to the free list coalesced; every other live block and word stays |
| `KernelHeap.KernelAllocator.Store` | kernel/src/allocator.rs:97-152 | a caller writing inside its own payload cannot disturb the allocator |
| `KernelHeap.KernelAllocator.Grow` | kernel/src/allocator.rs:165-189 | adds the supplied region to the list and to the total |
| `GptFormat.NameRoundTrip` | kernel/src/storage/gpt.rs:287-295 | the name an entry shows is the first 36 UTF-16 units up to a NUL, with a question mark for each that is not ASCII |
| `GptFormat.NameKeptIff` | kernel/src/storage/gpt.rs:388-398 | a name survives unchanged if and only if it is ASCII, NUL-free and at most 36 units long |
| `GptFormat.NamesCanChange` | kernel/src/storage/gpt.rs:287-295 | three names that do not survive: an accented letter, a NUL inside, thirty-seven units |
| `GptFormat.EntryRoundTrip` | kernel/src/storage/gpt.rs:274-296 | an encoded entry parses to the partition asked for, and is refused exactly when its range or identity is invalid |
| `GptFormat.HeaderRoundTrip` | kernel/src/storage/gpt.rs:212-272 | a primary header with a sane layout parses to itself |
| `GptFormat.BlockSealed` | kernel/src/storage/gpt.rs:401-427 | every written header carries its own checksum |
| `GptFormat.ParseWritten` | kernel/src/storage/gpt.rs:111-138 | the entries of an accepted layout parse to exactly its partitions in order, and to an error beyond thirty-two |
| `GptFormat.ReadBack` | kernel/src/storage/gpt.rs:83-145 | a disk with such a header and table reads as exactly that layout |
| `Gpt.EntriesDivide` | kernel/src/storage/gpt.rs:111-114 | entries never straddle blocks, for every supported block and entry size |
| `Gpt.ReadName` | kernel/src/storage/gpt.rs:287-295 | the name loop |
| `Gpt.EncodePartition` | kernel/src/storage/gpt.rs:388-398 | the entry bytes, name loop included |
| `Gpt.EntriesBlock` | kernel/src/storage/gpt.rs:373-384 | one block of the entry table |
| `Gpt.EntriesCrc` | kernel/src/storage/gpt.rs:350-365 | streaming over blocks gives the checksum of the whole table |
| `Gpt.ValidateSpecs` | kernel/src/storage/gpt.rs:313-337 | accepts exactly the layouts in range, with distinct identities and disjoint ranges |
| `Gpt.WriteEntries` | kernel/src/storage/gpt.rs:367-386 | writes the table, touching no other block |
| `Gpt.WriteHeader` | kernel/src/storage/gpt.rs:401-427 | writes one sealed header block |
| `Gpt.Write` | kernel/src/storage/gpt.rs:148-199 | refuses exactly the bad requests before writing anything; otherwise writes MBR, both tables and both headers, touches no usable block, and fails only if the device does |
| `Gpt.AdmitPartition` | kernel/src/storage/gpt.rs:117-134 | range, count and clash checks in order |
| `Gpt.ReadEntry` | kernel/src/storage/gpt.rs:112-135 | one entry |
| `Gpt.ReadBlock` | kernel/src/storage/gpt.rs:111-137 | the entries of one block |
| `Gpt.ReadEntriesOf` | kernel/src/storage/gpt.rs:94-143 | block-by-block parsing with the running checksum: gives exactly the table the bytes behind the header hold, their checksum the one the header gives, and fails when they hold none or the device fails |
| `Gpt.Read` | kernel/src/storage/gpt.rs:83-145 | gives exactly the table the disk holds, fails when it holds none or the device fails |
| `Gpt.RoundTrip` | kernel/src/storage/gpt.rs:83-199 | for every supported block size and accepted layout of at most thirty-two partitions, reading after writing gives exactly them, both headers are sealed and both tables are the same |
| `GptAccept.HeaderIff` | kernel/src/storage/gpt.rs:212-272 | for every block 1: accepted as given values exactly when its bytes are the primary header with those values, under its own checksum, with a table of 1 to 128 entries between it and the usable blocks |
| `GptAccept.NameIff` | kernel/src/storage/gpt.rs:286-294 | a name field shows exactly its units up to the first zero, a question mark for each that is not ASCII |
| `GptAccept.PartitionIff` | kernel/src/storage/gpt.rs:274-296 | for every entry: it reads as a partition exactly when its bytes hold it, with a first block not zero and not after the last, and an identity |
| `GptAccept.ListsIff` | kernel/src/storage/gpt.rs:104-138 | for every table: it parses to a list exactly when the list has each entry in use and no other, in order, at most 32, each within the usable blocks, no two with the same identity or a common block |
| `GptAccept.ReadIff` | kernel/src/storage/gpt.rs:83-145 | for every disk: it reads as a table exactly when block 1 is such a header, the bytes it points to have the checksum it gives, and they list that table |
| `GptAccept.HoldsOne` | kernel/src/storage/gpt.rs:83-145 | the bytes of a disk hold at most one table |
| `Gpt.MbrBytes` | kernel/src/storage/gpt.rs:339-349 | every byte of the protective MBR: type 0xee, start 1, size up to 32 bits, boot signature, zeros |
| `Gpt.WrittenBytes` | kernel/src/storage/gpt.rs:148-199 | a written disk block by block: MBR, primary header, table, the same table again and a sealed backup header in the last block; it holds exactly the partitions written |
| `Gpt.WriteIff` | kernel/src/storage/gpt.rs:148-199 | a layout is written exactly for a good block size, room for both tables, a writable device, a disk identity and at most 128 separate partitions with identities in the usable blocks |
| `Bios.PatchedIs` | kernel/src/storage/installer.rs:566-587 | patching a header gives the header with the new count and entry checksum, sealed again |
| `Bios.PatchHeader` | kernel/src/storage/installer.rs:566-587 | rewrites one header block |
| `Bios.WriteStages` | kernel/src/storage/installer.rs:537-545 | puts the two halves of the stage at the ends of the table regions and nowhere else; fails exactly for an image of two blocks, whose second half is empty, or a device fault |
| `Bios.WriteRecord` | kernel/src/storage/installer.rs:550-563 | boot code with the stage table, old timestamp and partition area kept |
| `Bios.InstallBios` | kernel/src/storage/installer.rs:509-564 | refuses an oversized image before writing; touches only the table regions; always fails for an image of exactly two blocks; on a partitioned disk it otherwise embeds unless the device fails |
| `Bios.EmbeddedReads` | kernel/src/storage/installer.rs:509-564 | after embedding both headers agree with their surviving entries and reading gives the same partitions |
| `Bios.BootLoads` | kernel/src/storage/installer.rs:550-563 | following the boot record's stage table yields the second stage of the image |
| `FsMake.EmptyImage` | kernel/src/fs/dunitfs.rs:279-287 | the slot image of the empty volume |
| `FsMake.Format` | kernel/src/fs/dunitfs.rs:262-301 | writes only inside the partition and leaves it as the specified format writes do, unless the device fails |
| `FsMake.FormattedMounts` | kernel/src/fs/dunitfs.rs:262-301 | such a partition mounts read/write |
| `Installer.PlanShape` | kernel/src/storage/installer.rs:135-190 | an accepted plan puts the ESP at 2048, the root after it up to the backup table |
| `Installer.PlanIff` | kernel/src/storage/installer.rs:135-190 | planned exactly for a writable 512-byte target of a supported driver with nothing mounted, good payloads and room; otherwise rejected for the first of these it fails |
| `Installer.StampedNonzero` | kernel/src/storage/installer.rs:634-646 | an identifier stamped with version and variant is never zero |
| `Installer.PlanWritable` | kernel/src/storage/installer.rs:135-190 | the partition writer accepts a plan exactly when its two partition identifiers differ |
| `Installer.FindPartition` | kernel/src/storage/installer.rs:266-278 | a partition of that type and start is listed |
| `Installer.VerifyInstall` | kernel/src/storage/installer.rs:263-291 | without device faults, passes exactly when table, root and first ESP block check out |
| `Installer.ChecksPass` | kernel/src/storage/installer.rs:263-291 | what partition, format and copy leave always passes the verify phase |
| `Installer.SyncPhase` | kernel/src/storage/installer.rs:298-305 | without device faults, passes exactly when the table still reads and the boot signature is there |
| `Installer.Commit` | kernel/src/storage/installer.rs:231-259 | blocks 34 to 2047 never change; success means installed; failure means an unusable input, an injected fault or a device fault |
| `Installer.Rollback` | kernel/src/storage/installer.rs:331-339 | writes both snapshots back, the second even when the first failed |
| `Installer.InstalledReads` | kernel/src/storage/installer.rs:263-305 | an installed disk reads as its two partitions, both headers agree with their entries, the record is signed, following it gives the boot image, and the root mounts read/write after embedding |
| `Installer.RunTransaction` | kernel/src/storage/installer.rs:198-229 | for every device behaviour and injected fault: blocks 34 to 2047 never change; a failure whose restore writes land leaves everything outside 2048 to the root's end as it was; success means installed; a plan with differing identifiers and a boot image that fits and is not exactly two blocks succeeds on a sound device, and one of two blocks always fails |
| `ElfLoad.UserSpace.EnsurePage` | kernel/src/elf/mod.rs:606-641 | maps a zeroed page or merges permissions; no byte changes; fails only for a page no user may have or for want of memory |
| `ElfLoad.UserSpace.LoadPage` | kernel/src/elf/mod.rs:582-601 | one page takes exactly its share of the file; fails only for a page no user may have or for want of memory |
| `ElfLoad.UserSpace.LoadSegment` | kernel/src/elf/mod.rs:540-604 | maps exactly the segment's pages and puts exactly its file bytes; fails exactly for a header whose numbers are out of bounds, that has both flag bits 1 and 2, or whose pages no user may have, or for want of memory |
| `ElfLoad.UserSpace.LoadImage` | kernel/src/elf/mod.rs:479-510 | memory is the program's image; the pages are exactly those a header of type 1 covers and the stack's; one is writable iff a header on it has flag bit 2, executable iff one has bit 1 and none has bit 2, a stack page executable iff a header of type 0x6474e551 has bit 1 and no segment is there; fails exactly when a header is not loadable or memory runs out |
| `ElfLoad.WriteXorExecute` | kernel/src/elf/mod.rs:494-508 | a page is writable and executable if and only if it is a stack page without a segment in a program that asks for an executable stack |
| `ElfLoad.StackCanRun` | kernel/src/elf/mod.rs:494-508 | a program with one executable-stack header, whose stack pages are writable and executable |
| `ElfLoad.ProtectedIff` | kernel/src/elf/mod.rs:575-641 | the permissions of every page of a loaded program in the numbers of the headers: flag bit values 1 and 2 and type 0x6474e551 |
| `ElfLoad.ProgramLoadableIff` | kernel/src/elf/mod.rs:540-573 | a program is loadable exactly when each header of type 1 is, in numbers; both flag bits together are refused |
| `ElfLoad.FileThenZeros` | kernel/src/elf/mod.rs:540-604 | segments with disjoint ranges, in any order and sharing pages, each hold their file bytes followed by zeros; all other memory is zero |
| `ElfStack.WholeIff` | kernel/src/elf/mod.rs:397-413 | an argument reads back whole exactly when it holds no NUL |
| `ElfStack.ArgumentsWholeIff` | kernel/src/elf/mod.rs:313-395 | startup code reads the arguments back whole if and only if none holds a NUL |
| `ElfStack.ArgumentCanBeCut` | kernel/src/elf/mod.rs:397-413 | startup code finds an argument with a NUL inside cut at it |
| `ElfStack.StackReads` | kernel/src/elf/mod.rs:313-395 | for every accepted argument and environment list, startup code reads back the count, the strings, the vector and the random bytes |
| `ElfStart.WriteBytes` | kernel/src/elf/mod.rs:451-477 | the chunk loop writes exactly the range, and succeeds whenever its pages are mapped |
| `ElfStart.PushStrings` | kernel/src/elf/mod.rs:326-336 | strings and pointers as laid out; refused exactly when one is longer than 128 |
| `ElfStart.PushRandom` | kernel/src/elf/mod.rs:417-428 | sixteen bytes at an aligned address |
| `ElfStart.PushAux` | kernel/src/elf/mod.rs:363-369 | the vector, terminator first |
| `ElfStart.PushStartup` | kernel/src/elf/mod.rs:354-383 | padding, vector, pointer arrays and count |
| `ElfStart.PrepareStack` | kernel/src/elf/mod.rs:313-395 | succeeds exactly for the accepted lists, always fits, changes nothing outside the stack, and leaves the stack pointer 8 mod 16 |
| `ElfStart.Start` | kernel/src/elf/mod.rs:226-272 | after load and stack setup the image, the permissions and the startup block are all in place together; fails exactly for unacceptable lists, bad segments or want of memory |

## Left out

- The `open` call's create and truncate options: the model opens an existing file, and creating and truncating are the calls that `open` would make first.
- `stat`, `readdir` and the VFS layer above DunitFS: easy members beside the ones modelled; open and seek are value-level calls without a method on the volume object.
- FsVolume: block I/O of a mounted volume never fails; a failing device is modelled for formatting, partitioning and installing only.
- FsRuns.CrashAnywhere: assumes the generation counter stays below 2^64 - 1; the source increments it without a check.
- FsRuns.CrashAnywhere: a block write is atomic; only a torn primary superblock that no longer decodes is covered beyond that, by FsCrash.TornPrimary.
- FsAlloc.EnsureCorrect: sums of extent lengths are unbounded integers; in-range extents cannot reach 2^64 blocks.
- Time: each call takes one timestamp as an input.
- GUI wire encoding, framing and the window manager: requests and events are datatypes, and a packet carries the outcome of decoding.
- GuiRuns.EveryRunTokens: serial and object counters are unbounded; the source uses fixed-width counters.
- Feature and format masks of the GUI are sets of named bits.
- Pmm.Init: the bitmap storage is allocated fresh; boot-map copying and the caching of regions are not modelled.
- Vmm: page-table entries are a frame and a set of flags, so physical addresses above the entry's address field cannot occur; CR3, TLB flushes, the MMIO range allocator and huge pages other than their refusal are not modelled.
- KernelMemory.FramedHeap.Alloc: when the payload's address itself wraps, the source goes on to grow and search the damaged list; the model stops at the damage. Locking and statistics are not modelled.
- KernelMemory.FramedHeap.Grow: that the bootstrap heap and the direct map of the pool do not overlap is where it starts from; the direct map is never at 0, so the path that gives back one frame of a run is not modelled.
- Gpt: device lookup by name and read lengths become success or failure of a request.
- Installer: the mixed bits of an identifier, made from the time-stamp counter, are inputs; that the two partitions' identifiers differ is a condition, not a theorem.
- Installer.VerifyInstall: a check of the root during which a block could not be read may go either way.
- ElfLoad: the ELF and program header bytes are not parsed, the loader takes the list of program headers; pages are a map whose behaviour over real tables is proved in Vmm, and TLS templates are not modelled.
- AHCI, VirtIO and other drivers, interrupts, scheduling, pipes, terminals, the shell, MemFS and the host tools are not part of this model.
