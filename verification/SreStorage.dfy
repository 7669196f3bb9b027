/** SRE storage over NVMe boot partitions: geometry, the write session, and the power-cycle lock.
    `Step` is one call of the storage API on values; the class `StorageLib` is the library with its
    module globals, and every method of it is proved to take exactly that step. */
module SreStorage {
  import opened Arithmetic
  import opened Bytes
  import opened Efi
  import opened Nvme

  const PAGE_BYTES := 4096
  const FWUG_RESOLUTION := 4096
  const BP_UNIT_BYTES := 0x2_0000

  // ---- Geometry ---------------------------------------------------------------------------

  /** Block size from the firmware update granularity byte: 0 and 0xFF carry no restriction. */
  function BlockSizeFor(fwug: byte): nat {
    if fwug == 0 || fwug == 0xFF then FWUG_RESOLUTION else FWUG_RESOLUTION * fwug as int
  }

  /** BPINFO bits 14:0 count 128 KiB units. */
  function PartitionBytes(bpinfo: u32): nat {
    (bpinfo as int % 0x8000) * BP_UNIT_BYTES
  }

  predicate GeometryOk(blockSize: nat, blockCount: nat, bpBytes: nat) {
    && FWUG_RESOLUTION <= blockSize <= FWUG_RESOLUTION * 0xFE
    && blockSize % FWUG_RESOLUTION == 0
    && BP_UNIT_BYTES <= bpBytes <= BP_UNIT_BYTES * 0x7FFF
    && blockSize <= bpBytes
    && blockCount == bpBytes / blockSize
  }

  // ---- Commands ---------------------------------------------------------------------------

  /** Set Features with only the target partition's field populated. */
  function LockCommand(p: nat, field: nat): Command
    requires p < 2 && field < 8
  {
    SetFeatures(FID_BP_WRITE_PROTECTION, if p == 0 then field else field * 8)
  }

  function DownloadCommand(index: nat, blockSize: nat, data: seq<byte>): Command
    requires 4 <= blockSize
  {
    FirmwareDownload(ToU32(blockSize / 4 - 1), ToU32((index * blockSize) / 4), DOWNLOAD_BP_DATA, data)
  }

  function CommitCommand(p: nat): Command
    requires p < 2
  {
    FirmwareCommit(p * 0x8000_0000 + COMMIT_ACTION_DOWNLOAD_BP * 8)
  }

  /** Get Log Page for `bytes` partition bytes from `offset`, past the 16-byte log header. */
  function LogPageCommand(p: nat, offset: nat, bytes: nat): Command
    requires p < 2 && 4 <= bytes
  {
    var logOffset := LOG_HEADER_BYTES + offset;
    var numd: nat := ToU32(bytes / 4 - 1);
    GetLogPage((numd % 0x1_0000) * 0x1_0000 + (p % 0x80) * 0x100 + LID_BOOT_PARTITION,
               (numd / 0x1_0000) % 0x1_0000,
               ToU32(logOffset), ToU32(logOffset / 0x1_0000_0000))
  }

  // ---- One API call -----------------------------------------------------------------------

  /** The library's module globals together with the controller. `accepted` is a history variable:
      the bytes of the blocks accepted since the session was opened. */
  datatype Storage = Storage(dev: Device, supported: bool, blockSize: nat, blockCount: nat, alignment: nat,
                             open: bool, part: nat, index: nat, accepted: seq<byte>)

  /** A buffer is passed as its address, with 0 for NULL, and its contents. */
  datatype Call =
    | Read(p: nat, block: nat, addr: nat)
    | Open(p: nat)
    | Write(addr: nat, data: seq<byte>)
    | Close
    | Abort
    | Lock(p: nat)

  datatype Request = Refuse(status: Status) | Send(cmd: Command)

  datatype StepResult = StepResult(storage: Storage, status: Status, data: seq<byte>)

  /** A written buffer holds one block, as the API demands of its callers. */
  predicate WellFormed(s: Storage, c: Call) {
    c.Write? ==> |c.data| == s.blockSize
  }

  ghost predicate Inv(s: Storage) {
    && s.dev.Valid()
    && (s.supported ==> s.alignment > 0 && GeometryOk(s.blockSize, s.blockCount, |s.dev.staging|))
    && (s.open ==> SessionInv(s))
  }

  /** What an open session guarantees: the blocks accepted so far are the staged prefix, and the
      target partition is write-unlocked. */
  ghost predicate SessionInv(s: Storage)
    requires s.dev.Valid()
  {
    && s.supported && s.part < 2 && s.index <= s.blockCount
    && |s.accepted| == s.index * s.blockSize <= |s.dev.staging|
    && s.dev.staging[..|s.accepted|] == s.accepted
    && s.dev.wp[s.part] == WriteUnlocked
  }

  /** The checks of each entry point in source order, and the command it then sends. */
  function Issue(s: Storage, c: Call): Request
    requires s.supported ==> s.alignment > 0 && 4 <= s.blockSize
    requires s.open ==> s.part < 2
  {
    match c
    case Read(p, block, addr) =>
      if p > 1 || addr == 0 then Refuse(InvalidParameter)
      else if !s.supported then Refuse(Unsupported)
      else if block >= s.blockCount then Refuse(InvalidParameter)
      else if s.open then Refuse(Aborted)
      else if addr % s.alignment != 0 then Refuse(InvalidParameter)
      else Send(LogPageCommand(p, block * s.blockSize, s.blockSize))
    case Open(p) =>
      if p > 1 then Refuse(InvalidParameter)
      else if !s.supported then Refuse(Unsupported)
      else if s.open then Refuse(Aborted)
      else Send(LockCommand(p, 1))
    case Write(addr, data) =>
      if addr == 0 then Refuse(InvalidParameter)
      else if !s.supported then Refuse(Unsupported)
      else if !s.open then Refuse(NotReady)
      else if s.index >= s.blockCount then Refuse(EndOfMedia)
      else if addr % s.alignment != 0 then Refuse(InvalidParameter)
      else Send(DownloadCommand(s.index, s.blockSize, data))
    case Close =>
      if !s.supported then Refuse(Unsupported)
      else if !s.open then Refuse(NotReady)
      else if s.index != s.blockCount then Refuse(Aborted)
      else Send(CommitCommand(s.part))
    case Abort =>
      if !s.supported then Refuse(Unsupported)
      else if !s.open then Refuse(NotReady)
      else Send(LockCommand(s.part, 2))
    case Lock(p) =>
      if p > 1 then Refuse(InvalidParameter)
      else if !s.supported then Refuse(Unsupported)
      else if s.open then Refuse(Aborted)
      else Send(LockCommand(p, 3))
  }

  /** ExecuteNvmePassThru: a pass-thru error is returned as is, a nonzero status code becomes a
      protocol error. */
  function StatusOf(r: Reply): Status {
    match r
    case Completed(_) => Success
    case StatusError => ProtocolError
    case NoTransport => DeviceError
  }

  /** The bookkeeping of each entry point once its command has ended. */
  function Finish(s: Storage, c: Call, dev: Device, status: Status): Storage {
    var t := s.(dev := dev);
    match c
    case Open(p) => if status.Success? then t.(part := p, index := 0, open := true, accepted := []) else t
    case Write(_, data) => if status.Success? then t.(index := s.index + 1, accepted := s.accepted + data) else t
    case Close => if status.Success? then t.(open := false, index := 0) else t
    case Abort => t.(open := false, index := 0)
    case Read(_, _, _) => t
    case Lock(_) => t
  }

  function Step(s: Storage, c: Call, o: Outcome): StepResult
    requires s.dev.Valid()
    requires s.supported ==> s.alignment > 0 && 4 <= s.blockSize
    requires s.open ==> s.part < 2
  {
    match Issue(s, c)
    case Refuse(status) => StepResult(s, status, [])
    case Send(cmd) =>
      var (dev, reply) := Execute(s.dev, cmd, o);
      StepResult(Finish(s, c, dev, StatusOf(reply)), StatusOf(reply), if reply.Completed? then reply.data else [])
  }

  // ---- Geometry and encoding lemmas -------------------------------------------------------

  // Every granularity byte and BPSZ field the constructor accepts yields a sound geometry.
  lemma ConstructorGeometry(fwug: byte, bpinfo: u32)
    requires PartitionBytes(bpinfo) != 0 && PartitionBytes(bpinfo) >= BlockSizeFor(fwug)
    ensures GeometryOk(BlockSizeFor(fwug), PartitionBytes(bpinfo) / BlockSizeFor(fwug), PartitionBytes(bpinfo))
  {
    assert (4096 * fwug as int) % 4096 == 0;
  }

  lemma BlockFits(blockSize: nat, blockCount: nat, bpBytes: nat, index: nat)
    requires GeometryOk(blockSize, blockCount, bpBytes) && index <= blockCount
    ensures index * blockSize <= blockCount * blockSize <= bpBytes < 0x1_0000_0000
    ensures index < blockCount ==> index * blockSize + blockSize <= blockCount * blockSize
    ensures blockCount >= 1
  {
    assert blockCount * blockSize <= bpBytes;
    MulMonotone(index, blockCount, blockSize);
    if index < blockCount {
      MulMonotone(index + 1, blockCount, blockSize);
      NextMultiple(index, blockSize);
    }
    DivAtLeastOne(bpBytes, blockSize);
  }

  // Blocks start and end on dword boundaries.
  lemma BlockAligned(blockSize: nat, index: nat)
    requires blockSize % FWUG_RESOLUTION == 0
    ensures blockSize % 4 == 0 && (index * blockSize) % 4 == 0
  {
    var k := blockSize / 4096;
    assert blockSize == 4 * (1024 * k);
    assert index * blockSize == 4 * (index * (1024 * k));
  }

  // Only the target partition's field is populated; the other one requests no change.
  lemma LockCommandDecodes(p: nat, field: nat)
    requires p < 2 && field < 8
    ensures var c := LockCommand(p, field);
            RequestedField(c.cdw11, p) == field && RequestedField(c.cdw11, 1 - p) == 0
  {
  }

  // A lock request moves the target partition to the requested state if the controller carries it
  // out and the partition accepts it, and changes nothing else; the host hears of success only then.
  lemma LockEffect(d: Device, p: nat, field: nat, o: Outcome)
    requires d.Valid() && p < 2 && 1 <= field <= 3
    ensures var (t, reply) := Execute(d, LockCommand(p, field), o);
            && t.bp == d.bp && t.staging == d.staging && t.wp[1 - p] == d.wp[1 - p]
            && t.wp[p] == (if TookEffect(o) && Accepts(d.wp[p], field) then NextProtection(d.wp[p], field) else d.wp[p])
            && (reply.Completed? <==> o == Executed && Accepts(d.wp[p], field))
  {
    LockCommandDecodes(p, field);
  }

  // No truncation: NUMD and OFST come back as the block size and the block's byte offset.
  lemma DownloadCommandDecodes(blockSize: nat, blockCount: nat, bpBytes: nat, index: nat, data: seq<byte>)
    requires GeometryOk(blockSize, blockCount, bpBytes) && index < blockCount
    ensures var c := DownloadCommand(index, blockSize, data);
            DownloadOffset(c) == index * blockSize && (c.cdw10 + 1) * 4 == blockSize
  {
    BlockFits(blockSize, blockCount, bpBytes, index);
    BlockAligned(blockSize, index);
  }

  lemma CommitCommandDecodes(p: nat)
    requires p < 2
    ensures CommitTarget(CommitCommand(p)) == p
    ensures (CommitCommand(p).cdw10 / 8) % 8 == COMMIT_ACTION_DOWNLOAD_BP
  {
  }

  // NUMDL/NUMDU and LPOL/LPOU recover the byte count and the offset plus the header exactly.
  lemma LogPageCommandDecodes(p: nat, offset: nat, bytes: nat)
    requires p < 2 && 4 <= bytes < 0x4_0000_0000 && bytes % 4 == 0
    requires LOG_HEADER_BYTES + offset < 0x1_0000_0000_0000_0000
    ensures var c := LogPageCommand(p, offset, bytes);
            && LogOffset(c) == offset + LOG_HEADER_BYTES
            && LogBytes(c) == bytes
            && LogPartition(c) == p
            && c.cdw10 % 0x100 == LID_BOOT_PARTITION
  {
    var numd, l := bytes / 4 - 1, offset + LOG_HEADER_BYTES;
    FitsU32(numd);
    FitsU32(l / 0x1_0000_0000);
    CountDecodes(numd, p);
    DivMod(l, 0x1_0000_0000);
    DivMod(numd, 0x1_0000);
  }

  lemma CountDecodes(numd: u32, p: nat)
    requires p < 2
    ensures var cdw10 := (numd % 0x1_0000) * 0x1_0000 + (p % 0x80) * 0x100 + LID_BOOT_PARTITION;
            && cdw10 / 0x1_0000 == numd % 0x1_0000 && (cdw10 / 0x100) % 2 == p && cdw10 % 0x100 == LID_BOOT_PARTITION
    ensures (numd / 0x1_0000) % 0x1_0000 == numd / 0x1_0000
  {
    FieldsDecode(numd % 0x1_0000, p);
  }

  lemma FieldsDecode(low: u16, p: nat)
    requires p < 2
    ensures var cdw10 := low as int * 0x1_0000 + p * 0x100 + LID_BOOT_PARTITION;
            cdw10 / 0x1_0000 == low as int && (cdw10 / 0x100) % 2 == p && cdw10 % 0x100 == LID_BOOT_PARTITION
  {
    var cdw10 := low as int * 0x1_0000 + p * 0x100 + LID_BOOT_PARTITION;
    DivUnique(cdw10, 0x1_0000, low, p * 0x100 + LID_BOOT_PARTITION);
    DivUnique(cdw10, 0x100, low as int * 0x100 + p, LID_BOOT_PARTITION);
    DivUnique(low as int * 0x100 + p, 2, low as int * 0x80, p);
  }

  /** `data` are the `bytes` bytes of `bp` from `offset` on. */
  predicate IsSlice(bp: seq<byte>, offset: nat, bytes: nat, data: seq<byte>) {
    offset + bytes <= |bp| && data == bp[offset..offset + bytes]
  }

  // A log page read that completes holds exactly the partition bytes at its offset, the log header
  // skipped, and changes nothing.
  lemma ChunkArrives(d: Device, p: nat, offset: nat, bytes: nat, o: Outcome)
    requires d.Valid() && p < 2 && 4 <= bytes < 0x1_0000_0000 && bytes % 4 == 0
    requires offset + bytes + LOG_HEADER_BYTES < 0x1_0000_0000_0000_0000
    ensures var (d', reply) := Execute(d, LogPageCommand(p, offset, bytes), o);
            && d' == d && (reply.Completed? ==> IsSlice(d.bp[p], offset, bytes, reply.data))
            && (o == Executed && offset + bytes <= |d.bp[p]| ==> reply.Completed?)
  {
    LogPageCommandDecodes(p, offset, bytes);
    if offset + bytes <= |d.bp[p]| {
      PastHeader(d.header, d.bp[p], offset, bytes);
    }
  }

  lemma PastHeader(header: seq<byte>, bp: seq<byte>, offset: nat, bytes: nat)
    requires offset + bytes <= |bp|
    ensures (header + bp)[|header| + offset..|header| + offset + bytes] == bp[offset..offset + bytes]
  {
  }

  // ---- What every call keeps --------------------------------------------------------------

  // Whatever becomes of a download at `at`, only the bytes it addresses can change.
  lemma DownloadEffect(d: Device, cmd: Command, o: Outcome, limit: nat)
    requires d.Valid() && cmd.FirmwareDownload? && DownloadFits(d, cmd)
    requires DownloadOffset(cmd) + |cmd.data| <= limit <= |d.staging|
    ensures var (t, reply) := Execute(d, cmd, o);
            var at := DownloadOffset(cmd);
            && t.bp == d.bp && t.wp == d.wp && |t.staging| == |d.staging|
            && t.staging[..at] == d.staging[..at] && t.staging[limit..] == d.staging[limit..]
            && (reply.Completed? ==> t.staging[..at + |cmd.data|] == d.staging[..at] + cmd.data)
            && (o == Executed ==> reply.Completed?)
  {
    var at := DownloadOffset(cmd);
    TailKept(d.staging, at, cmd.data, limit);
    if o.TransportError? {
      TailKept(d.staging, at, cmd.data[..if o.landed < |cmd.data| then o.landed else |cmd.data|], limit);
    }
  }

  // A download that is carried out, breaks off or is refused never disturbs the blocks before it.
  lemma WriteStep(s: Storage, addr: nat, data: seq<byte>, o: Outcome)
    requires Inv(s) && WellFormed(s, Write(addr, data)) && Issue(s, Write(addr, data)).Send?
    ensures var r := Step(s, Write(addr, data), o);
            && Inv(r.storage)
            && r.storage.dev.bp == s.dev.bp && r.storage.dev.wp == s.dev.wp
            && |r.storage.dev.staging| == |s.dev.staging|
            && s.blockCount * s.blockSize <= |s.dev.staging|
            && r.storage.dev.staging[s.blockCount * s.blockSize..] == s.dev.staging[s.blockCount * s.blockSize..]
            && r.storage.accepted == (if r.status.Success? then s.accepted + data else s.accepted)
            && (o == Executed ==> r.status == Success)
  {
    hide Execute;
    BlockFits(s.blockSize, s.blockCount, |s.dev.staging|, s.index);
    DownloadCommandDecodes(s.blockSize, s.blockCount, |s.dev.staging|, s.index, data);
    hide GeometryOk;
    DownloadEffect(s.dev, DownloadCommand(s.index, s.blockSize, data), o, s.blockCount * s.blockSize);
    hide DownloadCommand;
    NextMultiple(s.index, s.blockSize);
  }

  lemma TailKept(dst: seq<byte>, at: nat, src: seq<byte>, from: nat)
    requires at + |src| <= from <= |dst|
    ensures Splice(dst, at, src)[from..] == dst[from..]
  {
    var r := Splice(dst, at, src);
    assert r[from..] == r[at + |src|..][from - at - |src|..];
    assert dst[from..] == dst[at + |src|..][from - at - |src|..];
  }

  // A call on one partition never touches the other partition's protection state.
  lemma OtherLockUntouched(s: Storage, c: Call, o: Outcome, q: nat)
    requires Inv(s) && q < 2
    requires match c
             case Open(p) => p != q
             case Lock(p) => p != q
             case Abort => s.open ==> s.part != q
             case _ => true
    ensures Step(s, c, o).storage.dev.wp[q] == s.dev.wp[q]
  {
    hide Execute;
    match Issue(s, c)
    case Refuse(_) =>
    case Send(cmd) =>
      OnlySetFeaturesChangesLocks(s.dev, cmd, o);
      match c
      case Open(p) => LockEffect(s.dev, p, 1, o);
      case Lock(p) => LockEffect(s.dev, p, 3, o);
      case Abort => LockEffect(s.dev, s.part, 2, o);
      case _ =>
  }

  lemma {:induction false} StepKeepsInv(s: Storage, c: Call, o: Outcome)
    requires Inv(s) && WellFormed(s, c)
    ensures var t := Step(s, c, o).storage;
            && Inv(t) && |t.dev.staging| == |s.dev.staging|
            && t.supported == s.supported && t.alignment == s.alignment
            && t.blockSize == s.blockSize && t.blockCount == s.blockCount
  {
    hide Execute;
    match Issue(s, c)
    case Refuse(_) =>
    case Send(cmd) =>
      match c
      case Write(addr, data) => WriteStep(s, addr, data, o);
      case Open(p) => LockEffect(s.dev, p, 1, o);
      case Lock(p) => LockEffect(s.dev, p, 3, o);
      case Abort => LockEffect(s.dev, s.part, 2, o);
      case Close => CommitIsAllOrNothing(s.dev, cmd, o);
      case Read(p, block, addr) => ReadLeavesDevice(s.dev, cmd, o);
  }

  lemma ReadLeavesDevice(d: Device, c: Command, o: Outcome)
    requires d.Valid() && c.GetLogPage?
    ensures Execute(d, c, o).0 == d
  {
  }

  // A commit goes out only with every block of the partition staged, and to the session's partition.
  lemma CommitOnlyWhenComplete(s: Storage, c: Call)
    requires Inv(s)
    ensures Issue(s, c).Send? && Issue(s, c).cmd.FirmwareCommit? ==>
              && s.open && CommitTarget(Issue(s, c).cmd) == s.part
              && |s.accepted| == s.blockCount * s.blockSize
              && s.dev.staging[..s.blockCount * s.blockSize] == s.accepted
              && s.dev.wp[s.part] == WriteUnlocked
  {
  }

  // A partition changes in one step only: the commit of a complete session on it.
  lemma PartitionStep(s: Storage, c: Call, o: Outcome, p: nat)
    requires Inv(s) && WellFormed(s, c) && p < 2
    ensures var t := Step(s, c, o).storage;
            t.dev.bp[p] == s.dev.bp[p] || (CompleteSession(s, c, p) && t.dev.bp[p] == s.dev.staging)
  {
    match Issue(s, c)
    case Refuse(_) =>
    case Send(cmd) =>
      if cmd.FirmwareCommit? {
        CommitIsAllOrNothing(s.dev, cmd, o);
        CommitCommandDecodes(s.part);
      } else {
        OnlyCommitChangesPartitions(s.dev, cmd, o);
      }
  }

  ghost predicate CompleteSession(s: Storage, c: Call, p: nat) {
    && Inv(s) && c.Close? && s.open && s.part == p && s.index == s.blockCount
  }

  // The bytes past the last whole block are staged by no session.
  lemma TailStep(s: Storage, c: Call, o: Outcome)
    requires Inv(s) && WellFormed(s, c) && s.supported
    ensures s.blockCount * s.blockSize <= |s.dev.staging|
    ensures var t := Step(s, c, o).storage;
            t.dev.staging[s.blockCount * s.blockSize..] == s.dev.staging[s.blockCount * s.blockSize..]
  {
    BlockFits(s.blockSize, s.blockCount, |s.dev.staging|, 0);
    match c
    case Write(addr, data) => if Issue(s, c).Send? { WriteStep(s, addr, data, o); }
    case _ =>
      StepKeepsStaging(s, c, o);
  }

  lemma StepKeepsStaging(s: Storage, c: Call, o: Outcome)
    requires Inv(s) && !c.Write?
    ensures Step(s, c, o).storage.dev.staging == s.dev.staging
  {
  }

  // ---- Runs -------------------------------------------------------------------------------

  /** The state after a sequence of API calls, each with the way its command ended. */
  ghost function Run(s: Storage, calls: seq<(Call, Outcome)>): (t: Storage)
    requires Inv(s) && forall i | 0 <= i < |calls| :: WellFormed(s, calls[i].0)
    ensures Inv(t) && |t.dev.staging| == |s.dev.staging|
    ensures t.supported == s.supported && t.alignment == s.alignment
    ensures t.blockSize == s.blockSize && t.blockCount == s.blockCount
  {
    if calls == [] then s
    else
      var n := |calls| - 1;
      var u := Run(s, calls[..n]);
      assert WellFormed(s, calls[n].0);
      StepKeepsInv(u, calls[n].0, calls[n].1);
      Step(u, calls[n].0, calls[n].1).storage
  }

  // No run of calls ever writes the staging area past the last whole block.
  lemma {:induction false} StaleTail(s: Storage, calls: seq<(Call, Outcome)>)
    requires Inv(s) && s.supported && forall i | 0 <= i < |calls| :: WellFormed(s, calls[i].0)
    ensures s.blockCount * s.blockSize <= |s.dev.staging|
    ensures var t := Run(s, calls);
            t.dev.staging[s.blockCount * s.blockSize..] == s.dev.staging[s.blockCount * s.blockSize..]
  {
    BlockFits(s.blockSize, s.blockCount, |s.dev.staging|, 0);
    if calls != [] {
      var n := |calls| - 1;
      StaleTail(s, calls[..n]);
      TailStep(Run(s, calls[..n]), calls[n].0, calls[n].1);
    }
  }

  // In every run, with every pattern of failures and stopped after any call, a partition either
  // still holds its first bytes or was replaced by one complete session: exactly the blocks that
  // session accepted, in order, none of an earlier aborted one, followed by what the staging area
  // held past the last whole block when the run began.
  lemma {:induction false} RunIsAllOrNothing(s: Storage, calls: seq<(Call, Outcome)>, p: nat)
    requires Inv(s) && p < 2 && forall i | 0 <= i < |calls| :: WellFormed(s, calls[i].0)
    ensures var t := Run(s, calls);
            || t.dev.bp[p] == s.dev.bp[p]
            || exists i | 0 <= i < |calls| :: CommittedBy(s, calls, i, p, t.dev.bp[p])
  {
    if calls != [] {
      hide CommittedBy;
      hide Step;
      var n := |calls| - 1;
      var before := calls[..n];
      RunIsAllOrNothing(s, before, p);
      var u, t := Run(s, before), Run(s, calls);
      PartitionStep(u, calls[n].0, calls[n].1, p);
      if t.dev.bp[p] != u.dev.bp[p] {
        LastCommitted(s, calls, p);
      } else if t.dev.bp[p] != s.dev.bp[p] {
        var i :| 0 <= i < |before| && CommittedBy(s, before, i, p, u.dev.bp[p]);
        CommittedEarlier(s, calls, i, p, t.dev.bp[p]);
      }
    }
  }

  // A partition that the last call changed was replaced by the session which that call commits.
  lemma LastCommitted(s: Storage, calls: seq<(Call, Outcome)>, p: nat)
    requires Inv(s) && p < 2 && calls != [] && forall i | 0 <= i < |calls| :: WellFormed(s, calls[i].0)
    requires var n := |calls| - 1;
             var u, t := Run(s, calls[..n]), Run(s, calls);
             CompleteSession(u, calls[n].0, p) && t.dev.bp[p] == u.dev.staging
    ensures CommittedBy(s, calls, |calls| - 1, p, Run(s, calls).dev.bp[p])
  {
    hide Step;
    hide GeometryOk;
    hide Run;
    var u, whole := Run(s, calls[..|calls| - 1]), s.blockCount * s.blockSize;
    StaleTail(s, calls[..|calls| - 1]);
    assert |u.accepted| == whole && u.dev.staging[..whole] == u.accepted;
    HeadAndTail(u.dev.staging, whole);
  }

  lemma HeadAndTail(b: seq<byte>, n: nat)
    requires n <= |b|
    ensures b == b[..n] + b[n..]
  {
  }

  lemma CommittedEarlier(s: Storage, calls: seq<(Call, Outcome)>, i: nat, p: nat, content: seq<byte>)
    requires Inv(s) && i < |calls| - 1 && forall j | 0 <= j < |calls| :: WellFormed(s, calls[j].0)
    requires CommittedBy(s, calls[..|calls| - 1], i, p, content)
    ensures CommittedBy(s, calls, i, p, content)
  {
    assert calls[..|calls| - 1][..i] == calls[..i];
  }

  ghost predicate CommittedBy(s: Storage, calls: seq<(Call, Outcome)>, i: nat, p: nat, content: seq<byte>)
    requires Inv(s) && i < |calls| && forall j | 0 <= j < |calls| :: WellFormed(s, calls[j].0)
  {
    var u := Run(s, calls[..i]);
    && CompleteSession(u, calls[i].0, p)
    && |u.accepted| == s.blockCount * s.blockSize <= |s.dev.staging|
    && content == u.accepted + s.dev.staging[|u.accepted|..]
  }

  // Once both partitions are locked until power cycle with no session open, no run of calls
  // changes a byte or a lock of either, nor opens a session.
  lemma {:induction false} LockFreeze(s: Storage, calls: seq<(Call, Outcome)>)
    requires Inv(s) && forall i | 0 <= i < |calls| :: WellFormed(s, calls[i].0)
    requires !s.open && s.dev.wp == [LockedUntilPowerCycle, LockedUntilPowerCycle]
    ensures var t := Run(s, calls);
            t.dev.bp == s.dev.bp && t.dev.wp == s.dev.wp && !t.open
  {
    if calls != [] {
      var n := |calls| - 1;
      LockFreeze(s, calls[..n]);
      FrozenStep(Run(s, calls[..n]), calls[n].0, calls[n].1);
    }
  }

  lemma FrozenStep(s: Storage, c: Call, o: Outcome)
    requires Inv(s) && WellFormed(s, c) && !s.open
    requires s.dev.wp == [LockedUntilPowerCycle, LockedUntilPowerCycle]
    ensures var t := Step(s, c, o).storage; t.dev.bp == s.dev.bp && t.dev.wp == s.dev.wp && !t.open
  {
    StepKeepsInv(s, c, o);
    match Issue(s, c)
    case Refuse(_) =>
    case Send(cmd) =>
      FrozenPartition(s.dev, cmd, o, 0);
      FrozenPartition(s.dev, cmd, o, 1);
      if c.Open? { LockEffect(s.dev, c.p, 1, o); }
  }

  // So a commit leaves no byte of the partition undetermined by its session exactly when the block
  // size divides the partition size, which the constructor does not check.
  lemma TailIsEmptyWhenBlocksDivide(blockSize: nat, blockCount: nat, bpBytes: nat)
    requires GeometryOk(blockSize, blockCount, bpBytes)
    ensures blockCount * blockSize == bpBytes <==> bpBytes % blockSize == 0
  {
    assert bpBytes == (bpBytes / blockSize) * blockSize + bpBytes % blockSize;
  }

  // ---- The library ------------------------------------------------------------------------

  /** What the constructor finds out about the device: which services and registers it could read,
      CAP.BPS, the Identify fields and BPINFO. */
  datatype Identify = Identify(fwug: byte, setLockState: bool, lpeds: bool)
  datatype Probe = Probe(connected: bool, pciIo: bool, passThru: bool, ioAlign: nat, cap: Option<bool>,
                         identify: Option<Identify>, bpinfo: Option<u32>)

  /** Everything the constructor demands before it reports the device as supported. */
  predicate Supports(b: Probe) {
    && b.connected && b.pciIo && b.passThru && b.cap == Some(true)
    && b.identify.Some? && b.identify.value.lpeds && b.identify.value.setLockState
    && b.bpinfo.Some? && PartitionBytes(b.bpinfo.value) != 0
    && PartitionBytes(b.bpinfo.value) >= BlockSizeFor(b.identify.value.fwug)
  }

  class StorageLib {
    const ctrl: Controller
    var isSupported: bool
    var isWriteOpen: bool
    var partitionIndex: nat
    var blockSize: nat
    var blockCount: nat
    var blockIndex: nat
    var blockAlignment: nat
    ghost var accepted: seq<byte>

    ghost function Abs(): Storage
      reads this, ctrl
    {
      Storage(ctrl.dev, isSupported, blockSize, blockCount, blockAlignment,
              isWriteOpen, partitionIndex, blockIndex, accepted)
    }

    ghost predicate Valid()
      reads this, ctrl
    {
      Inv(Abs())
    }

    /** The step the call `c` must take from here, given how the oracle ends its command. */
    ghost function Next(c: Call): StepResult
      requires Valid()
      reads this, ctrl
    {
      Step(Abs(), c, ctrl.oracle(ctrl.tick))
    }

    /** From now on the controller carries out every command. */
    ghost predicate Healthy()
      reads ctrl
    {
      forall n: nat | ctrl.tick <= n :: ctrl.oracle(n) == Executed
    }

    /** The devices the call `c` adds to the controller's trail. */
    ghost function Trace(c: Call): seq<Device>
      requires Valid()
      reads this, ctrl
    {
      if Issue(Abs(), c).Send? then [Next(c).storage.dev] else []
    }

    constructor (ctrl: Controller, probe: Probe)
      requires ctrl.Valid()
      requires probe.bpinfo.Some? ==> PartitionBytes(probe.bpinfo.value) == |ctrl.dev.staging|
      ensures this.ctrl == ctrl && Valid() && !isWriteOpen && accepted == []
      ensures isSupported <==> Supports(probe)
      ensures isSupported ==>
                && blockSize == BlockSizeFor(probe.identify.value.fwug)
                && blockCount == PartitionBytes(probe.bpinfo.value) / blockSize
                && blockAlignment == if probe.ioAlign == 0 then 4096 else probe.ioAlign
    {
      this.ctrl := ctrl;
      isSupported, isWriteOpen, partitionIndex, blockIndex := false, false, 0, 0;
      blockSize, blockCount, blockAlignment, accepted := 0, 0, 0, [];
      new;
      if !probe.connected || !probe.pciIo || !probe.passThru {
        return;
      }
      blockAlignment := if probe.ioAlign == 0 then PAGE_BYTES else probe.ioAlign;
      if probe.cap != Some(true) {
        return;
      }
      if probe.identify.None? || !probe.identify.value.lpeds || !probe.identify.value.setLockState {
        return;
      }
      blockSize := BlockSizeFor(probe.identify.value.fwug);
      if probe.bpinfo.None? {
        return;
      }
      var bpBytes := PartitionBytes(probe.bpinfo.value);
      if bpBytes == 0 || bpBytes < blockSize {
        return;
      }
      blockCount := bpBytes / blockSize;
      isSupported := true;
      ConstructorGeometry(probe.identify.value.fwug, probe.bpinfo.value);
    }

    method ExecutePassThru(c: Command) returns (st: Status, data: seq<byte>)
      requires ctrl.Valid()
      modifies ctrl
      ensures ctrl.Valid()
      ensures var (dev, reply) := Execute(old(ctrl.dev), c, ctrl.oracle(old(ctrl.tick)));
              && ctrl.dev == dev && st == StatusOf(reply)
              && data == (if reply.Completed? then reply.data else [])
      ensures ctrl.trail == old(ctrl.trail) + [ctrl.dev]
      ensures ctrl.tick == old(ctrl.tick) + 1
    {
      var r := ctrl.Submit(c);
      match r {
        case NoTransport => return DeviceError, [];
        case StatusError => return ProtocolError, [];
        case Completed(d) => return Success, d;
      }
    }

    method ReadBlock(p: nat, block: nat, addr: nat) returns (st: Status, data: seq<byte>)
      requires Valid()
      modifies this, ctrl
      ensures Valid()
      ensures Abs() == old(Next(Read(p, block, addr))).storage
      ensures st == old(Next(Read(p, block, addr))).status && data == old(Next(Read(p, block, addr))).data
      ensures ctrl.trail == old(ctrl.trail) + old(Trace(Read(p, block, addr)))
      ensures ctrl.tick == old(ctrl.tick) + old(|Trace(Read(p, block, addr))|)
      ensures old(Healthy()) ==> Healthy()
    {
      hide LogPageCommand;
      hide Execute;
      hide SessionInv;
      StepKeepsInv(Abs(), Read(p, block, addr), ctrl.oracle(ctrl.tick));
      if p > 1 || addr == 0 { return InvalidParameter, []; }
      if !isSupported { return Unsupported, []; }
      if block >= blockCount { return InvalidParameter, []; }
      if isWriteOpen { return Aborted, []; }
      if addr % blockAlignment != 0 { return InvalidParameter, []; }
      st, data := ExecutePassThru(LogPageCommand(p, block * blockSize, blockSize));
    }

    method WriteOpen(p: nat) returns (st: Status)
      requires Valid()
      modifies this, ctrl
      ensures Valid()
      ensures Abs() == old(Next(Open(p))).storage && st == old(Next(Open(p))).status
      ensures ctrl.trail == old(ctrl.trail) + old(Trace(Open(p)))
      ensures ctrl.tick == old(ctrl.tick) + old(|Trace(Open(p))|)
      ensures old(Healthy()) ==> Healthy()
    {
      hide Execute;
      hide SessionInv;
      StepKeepsInv(Abs(), Open(p), ctrl.oracle(ctrl.tick));
      if p > 1 { return InvalidParameter; }
      if !isSupported { return Unsupported; }
      if isWriteOpen { return Aborted; }
      var data;
      st, data := ExecutePassThru(LockCommand(p, 1));
      if st != Success { return; }
      partitionIndex, blockIndex, isWriteOpen := p, 0, true;
      accepted := [];
    }

    method WriteBlock(addr: nat, data: seq<byte>) returns (st: Status)
      requires Valid() && |data| == blockSize
      modifies this, ctrl
      ensures Valid()
      ensures Abs() == old(Next(Write(addr, data))).storage && st == old(Next(Write(addr, data))).status
      ensures ctrl.trail == old(ctrl.trail) + old(Trace(Write(addr, data)))
      ensures ctrl.tick == old(ctrl.tick) + old(|Trace(Write(addr, data))|)
      ensures old(Healthy()) ==> Healthy()
    {
      hide Execute;
      hide SessionInv;
      StepKeepsInv(Abs(), Write(addr, data), ctrl.oracle(ctrl.tick));
      if addr == 0 { return InvalidParameter; }
      if !isSupported { return Unsupported; }
      if !isWriteOpen { return NotReady; }
      if blockIndex >= blockCount { return EndOfMedia; }
      if addr % blockAlignment != 0 { return InvalidParameter; }
      var none;
      st, none := ExecutePassThru(DownloadCommand(blockIndex, blockSize, data));
      if st == Success {
        blockIndex := blockIndex + 1;
        accepted := accepted + data;
      }
    }

    method WriteClose() returns (st: Status)
      requires Valid()
      modifies this, ctrl
      ensures Valid()
      ensures Abs() == old(Next(Close)).storage && st == old(Next(Close)).status
      ensures ctrl.trail == old(ctrl.trail) + old(Trace(Close))
      ensures ctrl.tick == old(ctrl.tick) + old(|Trace(Close)|)
      ensures old(Healthy()) ==> Healthy()
    {
      hide Execute;
      StepKeepsInv(Abs(), Close, ctrl.oracle(ctrl.tick));
      if !isSupported { return Unsupported; }
      if !isWriteOpen { return NotReady; }
      if blockIndex != blockCount { return Aborted; }
      var none;
      st, none := ExecutePassThru(CommitCommand(partitionIndex));
      if st == Success {
        isWriteOpen, blockIndex := false, 0;
      }
    }

    method WriteAbort() returns (st: Status)
      requires Valid()
      modifies this, ctrl
      ensures Valid()
      ensures Abs() == old(Next(Abort)).storage && st == old(Next(Abort)).status
      ensures ctrl.trail == old(ctrl.trail) + old(Trace(Abort))
      ensures ctrl.tick == old(ctrl.tick) + old(|Trace(Abort)|)
      ensures old(Healthy()) ==> Healthy()
    {
      hide Execute;
      StepKeepsInv(Abs(), Abort, ctrl.oracle(ctrl.tick));
      if !isSupported { return Unsupported; }
      if !isWriteOpen { return NotReady; }
      var none;
      st, none := ExecutePassThru(LockCommand(partitionIndex, 2));
      isWriteOpen, blockIndex := false, 0;
    }

    method LockPartition(p: nat) returns (st: Status)
      requires Valid()
      modifies this, ctrl
      ensures Valid()
      ensures Abs() == old(Next(Lock(p))).storage && st == old(Next(Lock(p))).status
      ensures ctrl.trail == old(ctrl.trail) + old(Trace(Lock(p)))
      ensures ctrl.tick == old(ctrl.tick) + old(|Trace(Lock(p))|)
      ensures old(Healthy()) ==> Healthy()
    {
      hide Execute;
      hide SessionInv;
      StepKeepsInv(Abs(), Lock(p), ctrl.oracle(ctrl.tick));
      if p > 1 { return InvalidParameter; }
      if !isSupported { return Unsupported; }
      if isWriteOpen { return Aborted; }
      var none;
      st, none := ExecutePassThru(LockCommand(p, 3));
    }
  }
}
