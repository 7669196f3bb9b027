# Secure recovery boot: a verified model

This project models the parts of the repository that carry its state and its arithmetic, and proves
what they promise. `dafny verify dfyconfig.toml` checks all of it.

- **Updating the boot partitions.** `Nvme` is a controller with two boot partitions, one staging
  area and a write-protection state per partition (NVMe Base Specification 2.1, sections 8.1.3 and
  5.1.25.1.32). Commands arrive as packed command dwords. An oracle decides how each one ends:
  carried out, rejected with a status code, or a failed transport that may or may not have taken
  effect and may have staged part of a download. A statement about every oracle covers every
  pattern of failures, and `trail` keeps the device after each command, so a statement about it
  covers a stop after any command. `SreStorage` is the write session over it: `Step` is one API
  call on values, and the class `StorageLib`, with the globals of the library as its fields, is
  proved to take exactly that step; `SreCalls` states each call in full. `SreImage` and `SreFmp` are
  the bytes of an update and the library that streams them.
- **Recovering from them.** `BpRecovery` reads a partition back in chunks and serves it as a RAM
  disk; `RamDisk` is the lifetime of the memory behind that disk.
- **Choosing what to boot.** `DevicePath`, `LoadOption`, `ShortForm`, `BootSource`, `Connect` and
  `BootFlow` with `BootTrace`: device path bytes, load options, short-form expansion, the fallback
  policy, the connect passes, and the run of the boot manager as a trace of firmware events.
- **Four algorithms.** `Dispatcher`, `Allocator`, `AcpiOutput` with `AcpiValues`, `AcpiTrees` and
  `Utf8`, and `ScriptParser` with `ScriptLaws` and `CallParser`.

Code that updates state is a class or a loop proved equal to a function of its inputs; the theorems
are about those functions, over every input and every run. What the main functions mean is also
stated without them, on bytes, nodes, characters or trace positions: `SreCalls` for the storage API,
`BootTrace.AttemptLaw` for a boot attempt, `ShortForm.ExpansionLaw`, `BootSource.FallbackLaw`,
`AcpiTrees.TreesParse`, `ScriptLaws.ResultIsExact`.

## Where the code keeps less than it says

Each of these is proved as an exact condition or, where it says so, as a bound, most with an input on
which the promise fails.

- **Bytes past the last whole block.** The storage constructor rounds the block count down and does
  not require the block size to divide the partition size. The remainder is never downloaded, and a
  commit installs whatever was staged there before (`SreStorage.StaleTail`,
  `SreFmp.ContentsAreTheImage`, `SreFmp.GranularityThreeLeavesATail`). The update is still
  all-or-nothing with that remainder as part of the contents, and it is exactly the image when the
  block size divides the partition size.
- **Completion status in the recovery read.** The C library checks the status code of a completion;
  the Rust reader looks only at the pass-thru result. A rejected chunk counts as read and leaves the
  buffer as it was (`BpRecovery.ExactIffNoneRejected`, `BpRecovery.RejectedReadIsSuccess`).
- **A session that was open before an update.** A failed apply closes the session it opened itself;
  one opened earlier by someone else stays open (`SreFmp.FmpDeviceLib.ApplyWimToSreStorage`).
- **Recovery chainload.** The path of the RAM disk starts with a media vendor node, which
  `is_partial_device_path` takes for a short form. Expansion then demands a partition node, which the
  unpartitioned payload has not (`BootFlow.ChainloadIsShortForm`, `BootFlow.RamDiskVolumeNeverLoads`).
- **RAM disk lifetime.** If firmware refuses the device path and then the rollback, the buffer is
  dropped with Block IO still installed; in every other run it is not (`RamDisk.ReleasedOnlyWhenStuck`).
- **Connect passes.** Stabilisation is noticed only by one further pass. One pass more than there are
  layers suffices for every layered firmware and is necessary when each connect adds only the next
  layer (`Connect.LayersNeedOnePassMore`), so ten layers exceed ten passes
  (`Connect.TenLayersDoNotStabilise`).
- **Registration order.** Monotone readiness alone does not make a dispatch independent of the order
  in which components are registered (`Dispatcher.OrderCanMatter`). It is independent exactly when
  ready components commute (`Dispatcher.OrderNeverMatters`), for instance when each always adds the
  same services.
- **Lock after an update.** A successful update leaves both partitions unlocked until they are locked
  before OS handoff; a failed one leaves its partition unlocked if the relock request does not take
  effect (`SreFmp.FmpDeviceLib.ApplyWimToSreStorage`).
- **Two path walkers.** They differ on an END_ENTIRE longer than 4 bytes and past the 64 KiB cap
  (`DevicePath.WalkersAgree`).
- **16-bit lengths.** A load option loses a path of 64 KiB or more, and an ACPI argument of 64 KiB or
  more does not come back (`LoadOption.OptionRoundTrip`, `AcpiOutput.BuilderRoundTrip`).

The documentation of `expand_device_path` lists InvalidParameter for empty paths only; the code also
returns it for a partial path without a HardDrive node, and the model follows the code.

## Model

| member | source | states |
|---|---|---|
| `SreFmp.FmpDeviceLib.SetImage` | uefi/SrePkg/Library/SreFmpDeviceLib/SreFmpDeviceLib.c:564-630 | Under every pattern of command failures each partition ends with its old bytes or the complete contents, and so does every device state a stop after any command would leave; success puts the contents on both and leaves both unlocked; partition B is not touched before A has its final bytes, and on a controller that carries commands out each partition that can be unlocked and has a buffer is updated whatever becomes of the other; status and recorded attempt say whether the image was refused, failed or succeeded; a refused image changes nothing; a frozen device is changed at no point; progress never falls and ends at 100 |
| `SreFmp.FmpDeviceLib.ApplyToBoth` | uefi/SrePkg/Library/SreFmpDeviceLib/SreFmpDeviceLib.c:597-609 | Partition A is finished before B is touched and B is attempted whatever became of A: on a controller that carries commands out each is updated if it alone can be; two all-or-nothing updates in a row are all-or-nothing together, over the whole trail of device states |
| `SreFmp.FmpDeviceLib.ApplyWimToSreStorage` | uefi/SrePkg/Library/SreFmpDeviceLib/SreFmpDeviceLib.c:75-188 | One partition is updated completely or not at all and the other keeps its bytes and its lock, after every command; a session is open afterwards exactly when one was open before; a success leaves the partition unlocked, and a failure inside the session leaves it write-locked exactly if the relock request takes effect; on a controller that carries commands out it succeeds exactly when the partition can be unlocked, no session is open and the buffer was allocated |
| `SreFmp.FmpDeviceLib.OpenSession` | uefi/SrePkg/Library/SreFmpDeviceLib/SreFmpDeviceLib.c:108-113 | Success starts a session that has staged nothing, on an unlocked partition; failure leaves the session state, the bytes and the other lock alone; nothing opens on a frozen device |
| `SreFmp.FmpDeviceLib.Stream` | uefi/SrePkg/Library/SreFmpDeviceLib/SreFmpDeviceLib.c:115-170 | The block loop with its reusable buffer stages exactly the complete contents block by block, then commits them; the reports of this partition rise between its start and its end, a success leaves no percentage out, and without a callback nothing is reported |
| `SreFmp.FmpDeviceLib.StreamBlock` | uefi/SrePkg/Library/SreFmpDeviceLib/SreFmpDeviceLib.c:118-159 | One round extends the staged prefix by exactly the next block of the contents, or leaves it as it was |
| `SreFmp.FmpDeviceLib.PrepareBlock` | uefi/SrePkg/Library/SreFmpDeviceLib/SreFmpDeviceLib.c:121-152 | The reused buffer ends up as exactly that block of image, zero padding and descriptor, and the straddling error is never taken |
| `SreFmp.FmpDeviceLib.FillChunk` | uefi/SrePkg/Library/SreFmpDeviceLib/SreFmpDeviceLib.c:121-152 | Next image bytes, zeros over everything older in the buffer, and the descriptor in the one block that holds its offset; an error only if the descriptor would straddle |
| `SreFmp.FmpDeviceLib.AbandonSession` | uefi/SrePkg/Library/SreFmpDeviceLib/SreFmpDeviceLib.c:172-183 | The error path closes the session, disturbs no bytes and no other lock, and restores write protection exactly if the relock request takes effect |
| `SreFmp.FmpDeviceLib.SreProgress` | uefi/SrePkg/Library/SreFmpDeviceLib/SreFmpDeviceLib.c:43-62 | A percentage is reported exactly when a callback is given and it differs from the last one |
| `SreFmp.ReportRises` | uefi/SrePkg/Library/SreFmpDeviceLib/SreFmpDeviceLib.c:45-62 | The percentage of a block never exceeds that of a later block nor 50 percent a partition, so reports never fall |
| `SreFmp.FmpDeviceLib.CheckImage` | uefi/SrePkg/Library/SreFmpDeviceLib/SreFmpDeviceLib.c:488-532 | Updatable exactly when the image is present, the device is supported and the image fits the whole blocks; otherwise the format is the recorded error |
| `SreFmp.FmpDeviceLib.GetVersion` | uefi/SrePkg/Library/SreFmpDeviceLib/SreFmpDeviceLib.c:395-445 | On the raw bytes of partition A: if the eight bytes at 0x4400 are SREI and structure version 1 a success returns the word after them, else 0; nothing on the device changes; it succeeds on a controller that carries commands out; an unsupported device, a missing buffer and an open session are errors |
| `SreFmp.FmpDeviceLib.Lock` | uefi/SrePkg/Library/SreFmpDeviceLib/SreFmpDeviceLib.c:660-676 | Success means both partitions locked until power cycle and no session open; each partition that accepts the request is locked whatever becomes of the other; no byte changes; a frozen device stays frozen at every point |
| `SreFmp.FmpDeviceLib.RunCalls` | uefi/SrePkg/Library/SreFmpDeviceLib/SreFmpDeviceLib.c:660-676 | Once both partitions are frozen no sequence of storage and FMP calls, mixed in any order, changes a byte or a lock of either at any point, or opens a session |
| `SreFmp.TwoUpdates` | uefi/SrePkg/Library/SreFmpDeviceLib/SreFmpDeviceLib.c:598-608 | An update of A then one of B leave, at every point in between, each partition old or complete |
| `SreFmp.ChunkIsBlock` | uefi/SrePkg/Library/SreFmpDeviceLib/SreFmpDeviceLib.c:121-152 | What the loop puts in its buffer is that block of the contents, descriptor included |
| `SreFmp.ContentsAreTheImage` | uefi/SrePkg/Library/SreStorage/SreStorageNvmeLib.c:370-379 | The installed bytes depend on the image alone exactly when the block size divides the partition size |
| `SreFmp.GranularityThreeLeavesATail` | uefi/SrePkg/Library/SreStorage/SreStorageNvmeLib.c:353-379 | A geometry the constructor accepts with 8 KiB past the last whole block |
| `SreImage.DescriptorInOneBlock` | uefi/SrePkg/Library/SreFmpDeviceLib/SreFmpDeviceLib.c:135-145 | For every accepted geometry the descriptor lies inside one block with an in-range index |
| `SreImage.StampedBlock` | uefi/SrePkg/Library/SreFmpDeviceLib/SreFmpDeviceLib.c:135-152 | Stamping the one block that holds the descriptor is stamping the partition |
| `SreImage.CompleteVersion` | uefi/SrePkg/Library/SreFmpDeviceLib/SreFmpDeviceLib.c:430-441 | The descriptor read back from the installed bytes is the version of the capsule |
| `SreImage.CompleteBytes` | uefi/SrePkg/Library/SreFmpDeviceLib/SreFmpDeviceLib.c:121-152 | Every byte of the contents: SREI, version 1, the capsule version and 20 reserved zeros from 0x4400 on, else the image, else zero |
| `SreImage.VersionOnBytes` | uefi/SrePkg/Library/SreFmpDeviceLib/SreFmpDeviceLib.c:430-441 | The version of a partition is the word after those eight bytes, and 0 without them |
| `SreImage.VersionRoundTrip` | uefi/SrePkg/Library/SreFmpDeviceLib/SreFmpDeviceLib.c:147-151 | Encoding and decoding a descriptor returns the version |
| `SreStorage.StorageLib.constructor` | uefi/SrePkg/Library/SreStorage/SreStorageNvmeLib.c:285-385 | Supported exactly when every service, register and feature bit is there and one block fits; then the geometry comes from FWUG, BPSZ and IoAlign and is sound |
| `SreStorage.StorageLib.ReadBlock` | uefi/SrePkg/Library/SreStorage/SreStorageNvmeLib.c:459-516 | Takes exactly the read step: the checks in order, one command, its status |
| `SreStorage.StorageLib.WriteOpen` | uefi/SrePkg/Library/SreStorage/SreStorageNvmeLib.c:521-548 | Takes exactly the open step and keeps the session invariant |
| `SreStorage.StorageLib.WriteBlock` | uefi/SrePkg/Library/SreStorage/SreStorageNvmeLib.c:553-606 | Takes exactly the write step: the index moves only if the controller accepted the block |
| `SreStorage.StorageLib.WriteClose` | uefi/SrePkg/Library/SreStorage/SreStorageNvmeLib.c:611-650 | Takes exactly the commit step: a failed commit leaves the session open |
| `SreStorage.StorageLib.WriteAbort` | uefi/SrePkg/Library/SreStorage/SreStorageNvmeLib.c:657-676 | Takes exactly the abort step: the session ends even if the relock fails |
| `SreStorage.StorageLib.LockPartition` | uefi/SrePkg/Library/SreStorage/SreStorageNvmeLib.c:681-696 | Takes exactly the lock step |
| `SreStorage.StorageLib.ExecutePassThru` | uefi/SrePkg/Library/SreStorage/SreStorageNvmeLib.c:192-225 | One command reaches the controller; a transport error and a nonzero status code come back as different errors |
| `SreCalls.RefusalsAreExact` | uefi/SrePkg/Library/SreStorage/SreStorageNvmeLib.c:459-696 | For each status, exactly the calls and states that are refused with it, in the order of the checks |
| `SreCalls.StatusIsTheOutcome` | uefi/SrePkg/Library/SreStorage/SreStorageNvmeLib.c:192-225 | A refused call changes nothing; a sent command succeeds exactly if it completes cleanly, a status code is a protocol error and a failed pass-thru a device error |
| `SreCalls.SessionAfter` | uefi/SrePkg/Library/SreStorage/SreStorageNvmeLib.c:521-676 | Whether a session is open, on which partition and at which block after each call, by its status |
| `SreCalls.WordsSent` | uefi/SrePkg/Library/SreStorage/SreStorageNvmeLib.c:395-643 | The literal command words of every call: feature 85h in the target field, log page 15h past its header, downloads in dwords, commit action 6 |
| `SreCalls.SupportIsExact` | uefi/SrePkg/Library/SreStorage/SreStorageNvmeLib.c:285-385 | Supported exactly with LPEDS, the lock state feature and at least one block of FWUG pages in the BPSZ units, and the sizes in bytes |
| `SreCalls.ProtectionTable` | uefi/SrePkg/Library/SreStorage/SreStorageNvmeLib.c:395-427 | Which lock requests a partition accepts in each state and where they lead |
| `SreStorage.StepKeepsInv` | uefi/SrePkg/Library/SreStorage/SreStorageNvmeLib.c:459-696 | Every call, however its command ends, keeps: index at most the block count, staged prefix equal to the blocks accepted this session, open session on an unlocked partition |
| `SreStorage.RunIsAllOrNothing` | uefi/SrePkg/Library/SreStorage/SreStorageNvmeLib.c:521-676 | In every run of API calls a partition holds its first bytes or one complete session: the blocks it accepted in order, none of an aborted session, then the staging bytes past the last whole block |
| `SreStorage.CommitOnlyWhenComplete` | uefi/SrePkg/Library/SreStorage/SreStorageNvmeLib.c:616-643 | A commit goes out only with every block staged, to the partition of the session, which is unlocked |
| `SreStorage.PartitionStep` | uefi/SrePkg/Library/SreStorage/SreStorageNvmeLib.c:459-696 | The only call that changes a partition is the commit of a complete session on it |
| `SreStorage.WriteStep` | uefi/SrePkg/Library/SreStorage/SreStorageNvmeLib.c:553-606 | A download that is carried out, refused or breaks off part-way never disturbs the blocks before it or the bytes past the last block |
| `SreStorage.OtherLockUntouched` | uefi/SrePkg/Library/SreStorage/SreStorageNvmeLib.c:395-427 | A call on one partition never changes the protection state of the other |
| `SreStorage.StaleTail` | uefi/SrePkg/Library/SreStorage/SreStorageNvmeLib.c:379-379 | No run of calls writes the staging bytes past the last whole block |
| `SreStorage.TailIsEmptyWhenBlocksDivide` | uefi/SrePkg/Library/SreStorage/SreStorageNvmeLib.c:370-379 | The whole blocks cover the partition exactly when the block size divides it |
| `SreStorage.LockFreeze` | uefi/SrePkg/Library/SreStorage/SreStorageNvmeLib.c:521-696 | After both partitions are locked until power cycle with no session open, no run of storage calls changes a byte or a lock or opens a session, whatever becomes of the commands |
| `SreStorage.LockEffect` | uefi/SrePkg/Library/SreStorage/SreStorageNvmeLib.c:395-427 | A lock request moves its partition to the requested state exactly if the controller carries it out and the partition accepts it, and changes nothing else |
| `SreStorage.ConstructorGeometry` | uefi/SrePkg/Library/SreStorage/SreStorageNvmeLib.c:353-379 | Every FWUG byte and BPSZ field the checks let through gives a sound geometry |
| `SreStorage.BlockFits` | uefi/SrePkg/Library/SreStorage/SreStorageNvmeLib.c:478-493 | Every block lies inside a partition of less than 4 GiB |
| `SreStorage.LockCommandDecodes` | uefi/SrePkg/Library/SreStorage/SreStorageNvmeLib.c:407-416 | Only the field of the target partition requests a change |
| `SreStorage.DownloadCommandDecodes` | uefi/SrePkg/Library/SreStorage/SreStorageNvmeLib.c:577-583 | NUMD and OFST are not truncated: they decode to the block size and the byte offset |
| `SreStorage.CommitCommandDecodes` | uefi/SrePkg/Library/SreStorage/SreStorageNvmeLib.c:629-634 | The commit word decodes to the partition and the download action |
| `SreStorage.LogPageCommandDecodes` | uefi/SrePkg/Library/SreStorage/SreStorageNvmeLib.c:485-504 | NUMDL, NUMDU, LPOL and LPOU decode to the byte count and the offset past the 16-byte header |
| `SreStorage.ChunkArrives` | uefi/SrePkg/Library/SreStorage/SreStorageNvmeLib.c:485-515 | A log page read that completes returns exactly the partition bytes at the offset |
| `Nvme.CommitIsAllOrNothing` | uefi/SrePkg/Library/SreStorage/SreStorageNvmeLib.c:629-649 | A commit replaces its unlocked target by the staged bytes or changes nothing, whatever the outcome the host sees |
| `Nvme.OnlyCommitChangesPartitions` | uefi/SrePkg/Library/SreStorage/SreStorageNvmeLib.c:395-606 | No other command changes a partition |
| `Nvme.FrozenPartition` | uefi/SrePkg/Library/SreStorage/SreStorageNvmeLib.c:681-696 | A partition locked until power cycle keeps its bytes and its lock under every command |
| `Nvme.FailureIsOpen` | uefi/SrePkg/Library/SreStorage/SreStorageNvmeLib.c:192-225 | Nothing is assumed of a failed transport: no effect, the whole effect, or any number of leading bytes of a download |
| `BpRecovery.ProbeIsClampedPower` | uefi/crates/patina_sre/src/bp_recovery.rs:195-207 | The chunk is 4096 times 2 to the MDTS clamped to 64 to 512 KiB, overflow guards notwithstanding, one of four sizes, the least without a reply and the greatest without a limit, and meets the alignment check of the reader |
| `BpRecovery.ReadBpViaLogPage` | uefi/crates/patina_sre/src/bp_recovery.rs:215-284 | Refuses exactly the unaligned sizes and otherwise fills the buffer as the recursive reader does |
| `BpRecovery.ReadChunks` | uefi/crates/patina_sre/src/bp_recovery.rs:231-283 | The chunk loop ends as the recursive reader does, on success and on the first failed command |
| `BpRecovery.CleanReadIsExact` | uefi/crates/patina_sre/src/bp_recovery.rs:231-283 | Success with clean completions delivers the partition prefix |
| `BpRecovery.ExactIffNoneRejected` | uefi/crates/patina_sre/src/bp_recovery.rs:265-283 | A read reported as successful equals the partition whatever the buffer held, exactly when no completion carried a status code |
| `BpRecovery.RejectedReadIsSuccess` | uefi/crates/patina_sre/src/bp_recovery.rs:265-283 | If every command is rejected the read succeeds and returns the buffer untouched |
| `BpRecovery.RamDiskReadsTheBuffer` | uefi/crates/patina_sre/src/bp_recovery.rs:371-402 | Saturating arithmetic lets no out-of-range run through and every in-range run of whole blocks reads its bytes; a changed media, a run outside and a broken block each have their own error |
| `BpRecovery.UpdateThenRecover` | uefi/crates/patina_sre/src/bp_recovery.rs:371-402 | On a device that holds an installed image a clean recovery read and the RAM disk serve exactly image, padding and descriptor at every in-range run, and the descriptor records the capsule version |
| `BpRecovery.UpdateAndRecover` | uefi/crates/patina_sre/src/bp_recovery.rs:791-814 | Update, version query and recovery read run in turn: after a successful update the query returns the capsule version and a clean read serves the image, padding and descriptor; on a controller that carries commands out all of them succeed |
| `BpRecovery.HealthyReadIsClean` | uefi/crates/patina_sre/src/bp_recovery.rs:231-283 | A controller that carries every command out rejects no chunk of a read inside the partition |
| `RamDisk.Recovery.RunSreFlow` | uefi/crates/patina_sre/src/bp_recovery.rs:777-835 | Released memory is behind a published interface, at the end and at every point of the run, exactly when the device path and the rollback were both refused |
| `RamDisk.Recovery.RegisterRamDisk` | uefi/crates/patina_sre/src/bp_recovery.rs:474-583 | What is installed and allocated after each pattern of refusals; nothing published refers to released state |
| `RamDisk.Recovery.Teardown` | uefi/crates/patina_sre/src/bp_recovery.rs:436-464 | State is freed only after both uninstalls succeeded; a refused one keeps everything |
| `RamDisk.ReleasedOnlyWhenStuck` | uefi/crates/patina_sre/src/bp_recovery.rs:474-583 | Over any number of recovery runs memory behind an interface is released exactly when some run was refused both |
| `RamDisk.RunLeaves` | uefi/crates/patina_sre/src/bp_recovery.rs:436-583 | What one run leaves published and allocated, object by object, for every pattern of refusals |
| `RamDisk.OneStuckRun` | uefi/crates/patina_sre/src/bp_recovery.rs:534-557 | One such run: the error path drops the buffer with Block IO still installed |
| `DevicePath.DevicePathSize` | uefi/crates/patina_sre/src/bp_recovery.rs:590-630 | The size walk, which terminates on any memory |
| `DevicePath.SizeIsExact` | uefi/crates/patina_sre/src/bp_recovery.rs:590-630 | It returns n above 0 exactly when the first n bytes are a node list ended by a 4-byte END_ENTIRE, within the cap |
| `DevicePath.SizeSound` | uefi/crates/patina_sre/src/bp_recovery.rs:590-630 | What it measures is a list of inner nodes and their END_ENTIRE |
| `DevicePath.ValidateDevicePathNodes` | uefi/crates/patina_boot/src/helpers.rs:807-833 | Accepts exactly the buffers in which every node up to the first END_ENTIRE lies |
| `DevicePath.EndIsExact` | uefi/crates/patina_boot/src/helpers.rs:807-833 | The END_ENTIRE node found has the claimed length inside the buffer, and the bytes before it are exactly a list of nodes none of which is one |
| `DevicePath.WalkersAgree` | uefi/crates/patina_boot/src/helpers.rs:807-833 | The size walk succeeds inside the buffer exactly when the validator accepts, the END_ENTIRE is 4 bytes and the end is within the cap; then they agree where it is |
| `DevicePath.LongEndDiffers` | uefi/crates/patina_sre/src/bp_recovery.rs:614-617 | A 5-byte END_ENTIRE on which they differ |
| `DevicePath.MeasuredByWalk` | uefi/crates/patina_sre/src/bp_recovery.rs:590-630 | Over the encoding of a node list the size walk returns its size, or 0 exactly when it passes the cap |
| `DevicePath.BuildFilePathNode` | uefi/crates/patina_sre/src/bp_recovery.rs:635-664 | A file path node and END_ENTIRE, or a bare END_ENTIRE when the 16-bit length cannot hold the path |
| `DevicePath.ExtensionIsExact` | uefi/crates/patina_sre/src/bp_recovery.rs:742-755 | Path without END plus the built node is the original nodes and one file path node that decodes to the name; too long a name leaves the path as it was |
| `DevicePath.UnitsRoundTrip` | uefi/crates/patina_sre/src/bp_recovery.rs:635-661 | The UTF-16 units of a file path node decode to the units written |
| `DevicePath.FilePathOnWire` | uefi/crates/patina_sre/src/bp_recovery.rs:635-661 | A file path node has type and subtype 4 and holds the units low byte first and a NUL; names of up to 32764 units fit |
| `DevicePath.NodeOnWire` | uefi/crates/patina_sre/src/bp_recovery.rs:590-630 | A node is type, subtype and a 16-bit length that counts these four bytes, low byte first |
| `DevicePath.NulFreeSurvives` | uefi/crates/patina_sre/src/bp_recovery.rs:635-638 | Reading up to the terminator returns the name exactly when it has no NUL |
| `LoadOption.ParseLoadOption` | uefi/crates/patina_boot/src/helpers.rs:843-887 | The parser with its description scan, safe on every byte string |
| `LoadOption.ParseIsExact` | uefi/crates/patina_boot/src/helpers.rs:843-887 | It returns a path exactly for the bytes of an active option whose list starts with that path and whose path the device path library accepts, on arbitrary input |
| `LoadOption.DescribedParses` | uefi/crates/patina_boot/src/helpers.rs:843-887 | Every active option with a NUL-free description and an accepted path parses to it, whatever optional data follows |
| `LoadOption.PathInIsExact` | uefi/crates/patina_boot/src/helpers.rs:873-886 | The path is the beginning of the list that consists of nodes and one END_ENTIRE, whatever follows it in the list |
| `LoadOption.OptionRoundTrip` | uefi/crates/patina_boot/src/helpers.rs:1880-1891 | Parsing the encoding of an option returns its path exactly when the path is shorter than 64 KiB and the device path library accepts it |
| `LoadOption.LongPathIsLost` | uefi/crates/patina_boot/src/helpers.rs:1884-1884 | A valid longer path that the 16-bit list length loses |
| `LoadOption.DiscoverBootOptions` | uefi/crates/patina_boot/src/helpers.rs:747-795 | The paths of the options whose numbers stand in BootOrder, two bytes each with the low one first, in its order and with none missed; NotFound if no number yields one or the variable is malformed, the read error otherwise |
| `LoadOption.BootableIsAFilter` | uefi/crates/patina_boot/src/helpers.rs:765-786 | Those entries are strictly increasing positions and miss no readable, active, well-formed entry |
| `LoadOption.DiscoveredInOrder` | uefi/crates/patina_boot/src/helpers.rs:765-786 | Entry i of BootOrder is bytes 2i and 2i + 1, and the paths found are what those numbers yield |
| `ShortForm.ExpandDevicePath` | uefi/crates/patina_boot/src/helpers.rs:606-725 | The one-pass search with its early exit equals counting all matches, which ExpansionLaw describes on nodes and bytes |
| `ShortForm.ExpansionLaw` | uefi/crates/patina_boot/src/helpers.rs:606-725 | A path that begins with a HardDrive, messaging or other node that is not rooted is resolved by its first HardDrive node: no naming handle is NotFound, two are SecurityViolation, a failed enumeration is itself, and one gives its nodes through the first naming one and the nodes that follow in the path |
| `ShortForm.FullPathsStay` | uefi/crates/patina_boot/src/helpers.rs:555-576 | Hardware, ACPI and firmware volume paths come back as they are; an empty or end-first path and a short form without a HardDrive node are invalid |
| `ShortForm.HardDriveIdentity` | uefi/crates/patina_boot/src/helpers.rs:625-634 | A partition is named by a 38-byte HardDrive body, and two bodies name one exactly if number, signature, format and signature type agree |
| `ShortForm.WithoutEndsFilters` | uefi/crates/patina_boot/src/helpers.rs:645-662 | What follows the partition is kept in order without its end nodes |
| `ShortForm.ExpansionIsExact` | uefi/crates/patina_boot/src/helpers.rs:664-724 | Ok exactly for one handle with the full partition identity, SecurityViolation for two or more, NotFound for none; Ok is that handle through the match plus the rest of the partial path |
| `ShortForm.PrefixIsExact` | uefi/crates/patina_boot/src/helpers.rs:692-709 | The prefix of a handle ends at the first node naming the partition and is found only if no end node precedes it |
| `ShortForm.ExpansionIgnoresOrder` | uefi/crates/patina_boot/src/helpers.rs:674-719 | Permuting the handle list never changes the result |
| `ShortForm.FindUnique` | uefi/crates/patina_boot/src/helpers.rs:674-719 | The handle loop returns the only match, none, or the discovery of a second one |
| `BootSource.SourcesMeanSomeDevice` | uefi/crates/patina_boot/src/boot_source_policy.rs:77-103 | A policy has sources exactly when there is a device it allows |
| `BootSource.FallbackBootOptions` | uefi/crates/patina_boot/src/helpers.rs:943-992 | The candidates or the first error, in the order of the checks, which FallbackLaw describes on the variables as read |
| `BootSource.FallbackLaw` | uefi/crates/patina_boot/src/helpers.rs:902-992 | For a policy that names a device: with SecureBoot and SetupMode (1, 0) the state flags do not matter, (0, 0) and (0, 1) each need their own, anything else is SecurityViolation and a failed read is itself; then every allowed volume yields its two candidates, in enumeration order |
| `BootSource.VolumesAreAllowed` | uefi/crates/patina_boot/src/helpers.rs:955-979 | No allowed volume is missed, none repeated, and they keep the order of the enumeration |
| `BootSource.AllowedIsExact` | uefi/crates/patina_boot/src/boot_source_policy.rs:93-126 | A volume with a USB node is allowed by the removable flag alone, any other exactly if one of its nodes names the partition of an approved node |
| `BootSource.Combine` | uefi/crates/patina_boot/src/helpers.rs:981-989 | Every volume with the first loader before any volume with the second |
| `BootSource.FallbackIsAuthorized` | uefi/crates/patina_boot/src/helpers.rs:951-979 | Every candidate is on an allowed volume and in an allowed Secure Boot state |
| `BootFlow.SreBootManager.Execute` | uefi/crates/patina_sre/src/sre_boot_manager.rs:527-783 | The trace of the run is exactly the specified one for every firmware answer; it never returns success and returns NotFound once locked |
| `BootFlow.SreBootManager.EnterLockedBoot` | uefi/crates/patina_boot/src/helpers.rs:147-159 | EndOfDxe then ReadyToLock; the capability exists exactly when both succeed |
| `BootFlow.SreBootManager.BootFromDevicePath` | uefi/crates/patina_boot/src/helpers.rs:176-214 | One attempt emits exactly: the attempt; if the path resolves, the load; if that succeeds, the watchdog at 300 seconds; if that succeeds, the start and the watchdog at 0 |
| `BootTrace.AttemptLaw` | uefi/crates/patina_boot/src/helpers.rs:176-214 | Over positions of any run: after attempt number k exactly these events follow as far as its answers allow, and no other event loads, starts or touches the watchdog |
| `BootTrace.RunOutline` | uefi/crates/patina_sre/src/sre_boot_manager.rs:534-783 | Apart from the inside of attempts, a run is the pre-lock work, the lock and, only if both transitions succeed, hotkey phase, two passes and last resort |
| `BootTrace.PreLockInOrder` | uefi/crates/patina_sre/src/sre_boot_manager.rs:534-568 | Before the lock: start of BDS, DFCI if configured, the dispatches, one connect without USB, and capsules last if configured |
| `BootTrace.LockByFailure` | uefi/crates/patina_boot/src/helpers.rs:147-159 | Which lock events occur for each failure, and that the lock needs all four answers |
| `BootTrace.HotkeyOutline` | uefi/crates/patina_sre/src/sre_boot_manager.rs:603-681 | The events of each hotkey and configuration: a full connect, the consoles, then one announced attempt or the recovery flow |
| `BootTrace.PassOutline` | uefi/crates/patina_sre/src/sre_boot_manager.rs:694-764 | One pass: a full connect in the second; the kept options, each announced, or else the announced main OS and the kept fallback candidates unannounced |
| `BootTrace.LastResortOutline` | uefi/crates/patina_sre/src/sre_boot_manager.rs:766-779 | A full connect and the chainload, exactly if the fallback is configured and a payload is present |
| `BootTrace.FirstAttempt` | uefi/crates/patina_sre/src/sre_boot_manager.rs:618-742 | The first attempt of a locked run for each hotkey and configuration, on nodes: recovery application or chainload, first USB boot file or front page, else the first option not skipped or the main OS |
| `BootTrace.ChainloadIsExact` | uefi/crates/patina_sre/src/bp_recovery.rs:725-763 | The chainload is the default boot file on the first measurable volume whose path begins with the vendor node of the RAM disk |
| `BootFlow.SreBootManager.PreLockPhase` | uefi/crates/patina_sre/src/sre_boot_manager.rs:200-221 | Start-of-BDS signals, driver dispatch, connect without USB, capsules, in that order |
| `BootFlow.SreBootManager.HotkeyDispatch` | uefi/crates/patina_sre/src/sre_boot_manager.rs:618-681 | The attempt of each hotkey, with the volume search and the front page as its fallbacks |
| `BootFlow.SreBootManager.TryOptions` | uefi/crates/patina_sre/src/sre_boot_manager.rs:702-727 | Attempts exactly the kept boot options, in order |
| `BootFlow.SreBootManager.TryFallback` | uefi/crates/patina_sre/src/sre_boot_manager.rs:743-763 | Attempts exactly the kept fallback candidates, in order |
| `BootFlow.FindFirstUsb` | uefi/crates/patina_sre/src/sre_boot_manager.rs:405-461 | The boot file path on the first suitable volume of the enumeration, none if the enumeration fails |
| `BootFlow.FirstUsbIsFirst` | uefi/crates/patina_sre/src/sre_boot_manager.rs:414-459 | That volume is the first with a USB node, a path the size walk can measure and a boot file path that parses |
| `BootFlow.PhasesInOrder` | uefi/crates/patina_sre/src/sre_boot_manager.rs:534-583 | Every run is pre-lock work with capsule processing, then EndOfDxe and ReadyToLock, then boot events, which exist only if both succeeded |
| `BootFlow.StartsFollowTheLock` | uefi/crates/patina_boot/src/helpers.rs:147-214 | Every load and start has both successful transitions before it, in order |
| `BootFlow.AttemptsAreExact` | uefi/crates/patina_sre/src/sre_boot_manager.rs:585-783 | A locked run attempts exactly the hotkey path, in each of two passes the kept options or else the main OS and the kept fallback list, then the last resort; every start is one of these attempts, loaded and under the watchdog |
| `BootFlow.KeptOptionsFilter` | uefi/crates/patina_sre/src/sre_boot_manager.rs:705-713 | With a recovery payload exactly the USB and firmware-file options are dropped; without one none is |
| `BootFlow.KeptOptionsInOrder` | uefi/crates/patina_sre/src/sre_boot_manager.rs:705-713 | The filter keeps the order |
| `BootFlow.KeptFallbackFilter` | uefi/crates/patina_sre/src/sre_boot_manager.rs:745-752 | With a recovery payload exactly the USB fallback candidates are dropped; without one none is |
| `BootFlow.KeptFallbackInOrder` | uefi/crates/patina_sre/src/sre_boot_manager.rs:745-752 | That filter keeps the order too |
| `BootFlow.ChainloadIsShortForm` | uefi/crates/patina_sre/src/bp_recovery.rs:742-763 | The recovery chainload path is taken for a short form, so it loads exactly when its filesystem path has a partition node that one handle names |
| `BootFlow.RamDiskVolumeNeverLoads` | uefi/crates/patina_sre/src/bp_recovery.rs:511-517 | A filesystem bound directly to the RAM disk is attempted and never loaded |
| `Connect.BootServices.ConnectPasses` | uefi/crates/patina_boot/src/helpers.rs:229-273 | The pass loop with its growing set equals the passes on values |
| `Connect.BootServices.ConnectAllSkipUsb` | uefi/crates/patina_boot/src/helpers.rs:322-363 | At most twenty passes that skip USB host controllers |
| `Connect.PassesAreSound` | uefi/crates/patina_boot/src/helpers.rs:229-363 | No handle is connected twice, a USB host never when skipping; when a pass finds nothing new every handle in the database was connected or deliberately skipped |
| `Connect.EndingIsExact` | uefi/crates/patina_boot/src/helpers.rs:235-273 | A run fails at the first refused enumeration; an unstable one connected something in every pass |
| `Connect.PassInOrder` | uefi/crates/patina_boot/src/helpers.rs:240-257 | A pass over new handles connects them in the order of the enumeration |
| `Connect.ShallowDiscoveryStabilises` | uefi/crates/patina_boot/src/helpers.rs:235-270 | On any firmware whose discovery is layered, one pass more than there are layers suffices to be reported stable |
| `Connect.LayersNeedOnePassMore` | uefi/crates/patina_boot/src/helpers.rs:259-264 | Where each connect adds only handles one layer deeper and every layer is inhabited, it is necessary too |
| `Connect.ChainNeedsOnePassMore` | uefi/crates/patina_boot/src/helpers.rs:259-264 | For a chain of handles, from the state before any pass on |
| `Connect.TenLayersDoNotStabilise` | uefi/crates/patina_boot/src/helpers.rs:235-235 | The ten passes of a full connect are one too few for ten layers |
| `Dispatcher.DriverContext.DispatchPlatform` | uefi/crates/patina_tianocore/src/context.rs:91-145 | Storage, leftovers and the set of successful runs are those of the two phases over the queue, for components that do anything with the storage they find; nothing runs successfully twice |
| `Dispatcher.DriverContext.RunPhase` | uefi/crates/patina_tianocore/src/context.rs:105-124 | The passes end, and end as the recursive phase does |
| `Dispatcher.DriverContext.Pass` | uefi/crates/patina_tianocore/src/context.rs:106-119 | One pass visits the queue in order, removes successes and failures, logs each success once, and reports whether there was one |
| `Dispatcher.PhaseExhausts` | uefi/crates/patina_tianocore/src/context.rs:105-124 | Whatever the components do, a phase ends with everything left over unready in the storage it leaves |
| `Dispatcher.DispatchInPhases` | uefi/crates/patina_tianocore/src/context.rs:91-145 | Only components that initialize are dispatched, each leaves by one phase or stays to the end, and the first phase leaves over exactly what is unready while configs are unlocked |
| `Dispatcher.SweepByOne` | uefi/crates/patina_tianocore/src/context.rs:106-119 | Appending a component to a sweep: unready stays queued, a failure leaves without touching storage, a success leaves and adds its services |
| `Dispatcher.LeftoversAreUnready` | uefi/crates/patina_tianocore/src/context.rs:147-151 | Every component left over by a dispatch is unready in the final storage |
| `Dispatcher.OrderNeverMatters` | uefi/crates/patina_tianocore/src/context.rs:105-124 | With monotone readiness, registration order makes no difference to a phase, for all components and storages, exactly when any two ready components commute |
| `Dispatcher.OrderCanMatter` | uefi/crates/patina_tianocore/src/context.rs:105-124 | Two components with monotone readiness whose registration order decides what ends up in storage |
| `Dispatcher.DispatchIgnoresOrder` | uefi/crates/patina_tianocore/src/context.rs:91-145 | If components commute in both phases, storage, successful components and leftovers of a dispatch are the same for every registration order |
| `Dispatcher.PhaseIsTheLeastClosedSet` | uefi/crates/patina_tianocore/src/context.rs:105-124 | If what a ready component does is fixed, a phase removes the least set closed under readiness, the only such set, and storage ends with exactly what it provides |
| `Dispatcher.FixedCommutes` | uefi/crates/patina_tianocore/src/context.rs:105-124 | Components that always do the same commute |
| `Allocator.UefiAllocator.Allocate` | uefi/crates/patina_tianocore/src/boot_services.rs:59-106 | Null exactly if uninitialised, refused, or over-aligned with size, alignment and 8 overflowing 64 bits; otherwise the pool is asked for exactly that many bytes and the block is new, aligned, inside them, with the pool address in the 8 bytes before it and no other byte changed |
| `Allocator.UefiAllocator.Deallocate` | uefi/crates/patina_tianocore/src/boot_services.rs:108-126 | FreePool receives exactly the pool address of the block, and nothing else is released or changed |
| `Allocator.EveryRunKeepsHeap` | uefi/crates/patina_tianocore/src/boot_services.rs:59-126 | Over any interleaving of allocations, releases and writes by callers every block stays aligned, inside its pool allocation and traceable to it |
| `Allocator.AllocKeepsHeap` | uefi/crates/patina_tianocore/src/boot_services.rs:59-106 | Any allocation firmware can answer keeps that invariant, back pointer of every other block included |
| `Allocator.FreeKeepsHeap` | uefi/crates/patina_tianocore/src/boot_services.rs:108-126 | A release keeps it |
| `Allocator.StoreKeepsHeap` | uefi/crates/patina_tianocore/src/boot_services.rs:98-102 | A caller writing inside its block destroys no back pointer |
| `Allocator.SlotsOverlapNoPayload` | uefi/crates/patina_tianocore/src/boot_services.rs:95-104 | Back-pointer slots overlap no live payload, and payloads do not overlap |
| `Allocator.FreeFindsThePool` | uefi/crates/patina_tianocore/src/boot_services.rs:118-123 | The pointer read back is the pool address |
| `Allocator.MaskRoundsDown` | uefi/crates/patina_tianocore/src/boot_services.rs:96-96 | Masking with the complement of align minus 1 rounds down to a multiple, for every power of two and word width |
| `AcpiOutput.TryFrom` | ec/test-lib/src/acpi.rs:420-492 | The running-offset decoder equals the recursive one, errors included |
| `AcpiOutput.DecodeIsExact` | ec/test-lib/src/acpi.rs:420-492 | Accepted exactly when the bytes are a correct header and exactly count records of type, length, data and padding; the result is that list |
| `AcpiOutput.ErrorsAreExact` | ec/test-lib/src/acpi.rs:420-492 | Malformed exactly if the signature or the length is wrong or bytes follow the last argument; otherwise what is not accepted ends too early |
| `AcpiOutput.BuilderRoundTrip` | ec/test-lib/src/acpi.rs:914-927 | Decoding inverts the builder exactly when no 16-bit length and no 32-bit total truncates |
| `AcpiOutput.LongDataIsLost` | ec/test-lib/src/acpi.rs:920-920 | A 64 KiB argument that does not come back |
| `AcpiOutput.NoPrefixIsAccepted` | ec/test-lib/src/acpi.rs:438-482 | A proper prefix with a corrected length field always runs out of bytes |
| `AcpiValues.ParseAcpiValues` | ec/test-lib/src/acpi.rs:261-281 | The offset loop with its recursion into packages terminates on every byte string and equals the recursive reading |
| `AcpiTrees.TreesParse` | ec/test-lib/src/acpi.rs:261-299 | Parsing the bytes of any list of nested records, at any depth, returns their values: numbers from their first four bytes, texts without trailing NULs, packages of either kind as the values inside them, other kinds as buffers, and a rest as malformed |
| `AcpiTrees.EveryInputIsTrees` | ec/test-lib/src/acpi.rs:261-299 | Every byte string is such a list and a rest, so this fixes the parser on all inputs |
| `AcpiTrees.WrittenTextIsRead` | ec/test-lib/src/acpi.rs:293-295 | A text not ending in a NUL is read back whatever number of NULs follows it |
| `AcpiValues.ParseInvertsEncode` | ec/test-lib/src/acpi.rs:261-299 | Records followed by any remainder parse to one value each, the remainder to one final malformed item |
| `AcpiValues.EveryInputTiles` | ec/test-lib/src/acpi.rs:264-280 | Every byte string is such records and a remainder, so nothing is dropped or read twice |
| `AcpiValues.SerializeInput` | ec/test-lib/src/acpi.rs:401-417 | The field-by-field serializer writes header and records |
| `AcpiValues.ArgumentOnWire` | ec/test-lib/src/acpi.rs:310-349 | The literal type, length and data of every kind of argument |
| `AcpiValues.InputHeader` | ec/test-lib/src/acpi.rs:310-417 | The literal header: AeiF, the name in 256 bytes, the data size without record headers, the count; and that it fails exactly for a string or buffer too long for 16 bits |
| `AcpiValues.SectionRoundTrip` | ec/test-lib/src/acpi.rs:310-417 | The argument section parses back to the arguments, strings as text up to trailing NULs |
| `Utf8.TextRoundTrip` | ec/test-lib/src/acpi.rs:294-294 | Reading text lossily returns the text that was written |
| `Utf8.LossyIsExactOnText` | ec/test-lib/src/acpi.rs:294-294 | Lossy reading loses nothing exactly from well-formed bytes |
| `Utf8.ReplacedIsMaximal` | ec/test-lib/src/acpi.rs:294-294 | Lossy reading replaces exactly the maximal subparts of section 3.9 of the Unicode Standard |
| `AcpiValues.StringSurvives` | ec/test-lib/src/acpi.rs:293-295 | A string argument survives unchanged exactly when it does not end in a NUL |
| `ScriptParser.Parse` | ec/test-script/src/parser.rs:132-176 | The line-by-line splitter yields exactly what joining the cleaned lines and splitting at semicolons yields: statements, labels, first error or unterminated tail |
| `ScriptLaws.ResultIsExact` | ec/test-script/src/parser.rs:132-176 | Success means every statement parses and only blanks follow the last semicolon; a StatementError is the first statement that does not parse; an unfinished tail is an error under the line it starts on |
| `ScriptLaws.TextByLines` | ec/test-script/src/parser.rs:137-152 | Line numbers start at 1 and never fall, and under number n stands exactly the cleaned line n, after a space unless it is the first |
| `ScriptLaws.SplitByCharacter` | ec/test-script/src/parser.rs:154-165 | Character by character: a semicolon turns the unfinished text into one statement, numbered as its first character that is not blank, or into none if it is blank |
| `ScriptLaws.TrimIsExact` | ec/test-script/src/parser.rs:143-143 | Trimmed text is the text without the blanks at either end, and begins and ends with others |
| `ScriptLaws.CleanIsExact` | ec/test-script/src/parser.rs:139-143 | What counts of a line is the trimmed text before its first hash sign |
| `ScriptLaws.LinesStep` | ec/test-script/src/parser.rs:137-137 | Lines end at newlines, a carriage return before one is dropped with it |
| `ScriptParser.Drain` | ec/test-script/src/parser.rs:154-165 | The inner loop takes exactly the finished statements off the buffer and stops at the first that does not parse |
| `ScriptParser.TakeLine` | ec/test-script/src/parser.rs:137-166 | One line extends the joined text by its cleaned contribution |
| `ScriptParser.SplitAppend` | ec/test-script/src/parser.rs:154-165 | Splitting is incremental: later text only continues the unfinished tail |
| `ScriptParser.CutStatement` | ec/test-script/src/parser.rs:154-164 | Cutting the buffer at its first semicolon cuts the joined text there, under the line of its first non-blank character |
| `ScriptParser.FailureStands` | ec/test-script/src/parser.rs:158-161 | The first failing statement is reported whatever follows it |
| `CallParser.SplitAtDots` | ec/test-script/src/parser.rs:216-241 | The depth-counting loop equals the recursive splitter |
| `CallParser.SplitIsExact` | ec/test-script/src/parser.rs:216-241 | The parts are the only strings balanced and free of dots outside parentheses that joined by dots give the source; there are none exactly when parentheses do not balance |
| `CallParser.ClosedIsBalanced` | ec/test-script/src/parser.rs:216-241 | Balanced by counting: at no position more closed than opened, none open at the end, and every dot inside a pair |
| `CallParser.SplitCallIsExact` | ec/test-script/src/parser.rs:279-295 | A call with an argument is accepted exactly when it is a name without a parenthesis and one outer pair around the rest, and comes out as those two trimmed; without a parenthesis it is a name as it is |

## Left out

- Logging, GUID tables, event creation, raw pointers and casts: a C buffer is its address and its contents, an empty image stands for a NULL or zero-sized one, and other NULL out-parameters are not modelled.
- Firmware answers are inputs: the device connect of the storage constructor, register and Identify reads, memory allocation, variable reads and writes, handle enumeration, the parsing of assembled boot file paths, the hotkey probe, the recovery payload probe and console discovery.
- Controller behaviour the specification leaves open is fixed in one way: a log read past the end is refused, and a request for the state a locked partition already has is accepted. A log read that is refused or breaks off delivers no bytes. Asynchronous completion, activation of a partition and RPMB are not modelled.
- Negative partition indices, and the FMP entry points that only return constants or format strings.
- AcpiValues.SerializeInput: the sum of data sizes truncates to 32 bits where the source would panic or wrap, because such a list is 4 GiB long.
- LoadOption.ParseLoadOption: the verdict of the device path library on a path the validator accepts is an input, because that library is not part of this model.
- ShortForm.ExpandDevicePath: paths are node lists without END_ENTIRE, and a HardDrive node is one of 42 bytes, because the node parser of the device path library is not part of this model.
- RamDisk.Recovery.RunSreFlow: disconnecting drivers and connecting the new handle are left out, because their results are ignored; the leaked device path bytes are not tracked.
- BootFlow.SreBootManager.Execute: a capsule that resets the machine, and an image that never returns, end the trace early; every prefix of the trace is covered by the ordering lemmas.
- BootFlow.ChainloadIsShortForm: a failure to locate the RAM disk handle or the filesystem handles is a recovery run without volumes, because neither makes an attempt.
- Connect.BootServices.ConnectPasses: recursive and single connects differ only in what a connect adds to the database, which is an input; the database grows only by connects.
- Dispatcher.DriverContext.DispatchPlatform: whether a component initializes is an input and adds no services, because the component library is not part of this model.
- Allocator.UefiAllocator.Allocate: the mask is written as subtraction of a remainder, which `Allocator.MaskRoundsDown` proves equal for powers of two; the atomic table pointer is a flag.
- ScriptParser.Parse: parsing of one statement is a parameter; of it only the splitting of calls is modelled, in `CallParser`. Verbs, operands, timestamps, timers and number literals are not modelled.
- Not modelled: the loaders under uefi/SrePkg/Application, the test user interface, the command line tool, the serial port, the mock source, and the UCSI envelope checks.
