/** The storage API call by call: what it refuses and with which status, the command words it sends,
    and the session it leaves behind. */
module SreCalls {
  import opened Arithmetic
  import opened Bytes
  import opened Efi
  import opened Nvme
  import opened SreStorage

  /** The arguments name a partition and a buffer. */
  predicate ArgumentsOk(c: Call) {
    match c
    case Read(p, _, addr) => p <= 1 && addr != 0
    case Open(p) => p <= 1
    case Lock(p) => p <= 1
    case Write(addr, _) => addr != 0
    case Close => true
    case Abort => true
  }

  // Each status a call is refused with has exactly one situation: bad arguments before anything
  // else, then an unsupported device, a missing or a wrongly open session, the position in the
  // session or on the partition, and the alignment of the buffer last.
  lemma RefusalsAreExact(s: Storage, c: Call)
    requires Inv(s)
    ensures Issue(s, c) == Refuse(InvalidParameter) <==>
              || !ArgumentsOk(c)
              || (s.supported && c.Read? && (c.block >= s.blockCount || (!s.open && c.addr % s.alignment != 0)))
              || (s.supported && c.Write? && s.open && s.index != s.blockCount && c.addr % s.alignment != 0)
    ensures Issue(s, c) == Refuse(Unsupported) <==> ArgumentsOk(c) && !s.supported
    ensures Issue(s, c) == Refuse(NotReady) <==>
              ArgumentsOk(c) && s.supported && !s.open && (c.Write? || c.Close? || c.Abort?)
    ensures Issue(s, c) == Refuse(EndOfMedia) <==>
              ArgumentsOk(c) && s.supported && s.open && c.Write? && s.index == s.blockCount
    ensures Issue(s, c) == Refuse(Aborted) <==>
              && ArgumentsOk(c) && s.supported && s.open
              && (c.Open? || c.Lock? || (c.Read? && c.block < s.blockCount) || (c.Close? && s.index != s.blockCount))
    ensures Issue(s, c).Refuse? ==> Issue(s, c).status in {InvalidParameter, Unsupported, NotReady, EndOfMedia, Aborted}
  {
  }

  // A refused call sends nothing and changes nothing. A call that sends a command succeeds exactly
  // if the command completes; a nonzero status code is a protocol error and a failed pass-thru a
  // device error.
  lemma StatusIsTheOutcome(s: Storage, c: Call, o: Outcome)
    requires Inv(s)
    ensures var r := Step(s, c, o);
            match Issue(s, c)
            case Refuse(status) => r.storage == s && r.status == status && status != Success && r.data == []
            case Send(cmd) =>
              && (o.Rejected? ==> r.status == ProtocolError)
              && (o.TransportError? ==> r.status == DeviceError)
              && (o.Executed? ==> r.status == if Perform(s.dev, cmd).Done? then Success else ProtocolError)
              && r.storage.dev == Execute(s.dev, cmd, o).0
  {
    hide Perform;
  }

  // The session after each call, by its status.
  lemma SessionAfter(s: Storage, c: Call, o: Outcome)
    requires Inv(s)
    ensures var r := Step(s, c, o);
            var t := r.storage;
            match c
            case Open(p) =>
              if r.status == Success then t.open && t.part == p && t.index == 0 && t.accepted == []
              else t.open == s.open && t.part == s.part && t.index == s.index
            case Write(_, data) =>
              && t.open == s.open && t.part == s.part
              && t.index == (if r.status == Success then s.index + 1 else s.index)
            case Close =>
              t.part == s.part && if r.status == Success then !t.open && t.index == 0 else t.open == s.open && t.index == s.index
            case Abort => t.part == s.part && !t.open && (s.open ==> t.index == 0)
            case Read(_, _, _) => t.open == s.open && t.part == s.part && t.index == s.index
            case Lock(_) => t.open == s.open && t.part == s.part && t.index == s.index
  {
    hide Execute;
  }

  // The command words on the wire (sections 5.1.8, 5.1.9, 5.1.12 and 5.1.25 of the NVMe Base
  // Specification 2.1): feature 85h with the request in the target's three bits, log page 15h past
  // its header, downloads in dwords, and commit action 6 with the partition in the top bit.
  lemma WordsSent(s: Storage, c: Call)
    requires Inv(s) && Issue(s, c).Send?
    ensures var cmd := Issue(s, c).cmd;
            match c
            case Open(p) => cmd == SetFeatures(0x85, if p == 0 then 1 else 8)
            case Abort => cmd == SetFeatures(0x85, if s.part == 0 then 2 else 16)
            case Lock(p) => cmd == SetFeatures(0x85, if p == 0 then 3 else 24)
            case Close => cmd == FirmwareCommit(if s.part == 0 then 0x30 else 0x8000_0030)
            case Write(_, data) =>
              cmd.FirmwareDownload? && 4 * (cmd.cdw10 + 1) == s.blockSize && 4 * cmd.cdw11 == s.index * s.blockSize
              && cmd.cdw12 == 1 && cmd.data == data
            case Read(p, block, _) =>
              cmd.GetLogPage? && cmd.cdw10 % 0x100 == 0x15 && LogPartition(cmd) == p
              && LogOffset(cmd) == 16 + block * s.blockSize && LogBytes(cmd) == s.blockSize
  {
    hide DownloadCommand;
    hide LogPageCommand;
    match c
    case Write(_, data) => DownloadWords(s.blockSize, s.blockCount, |s.dev.staging|, s.index, data);
    case Read(p, block, _) => ReadWords(s, p, block);
    case _ =>
  }

  lemma DownloadWords(blockSize: nat, blockCount: nat, bpBytes: nat, index: nat, data: seq<byte>)
    requires GeometryOk(blockSize, blockCount, bpBytes) && index < blockCount
    ensures var c := DownloadCommand(index, blockSize, data);
            c.FirmwareDownload? && 4 * (c.cdw10 + 1) == blockSize && 4 * c.cdw11 == index * blockSize && c.cdw12 == 1 && c.data == data
  {
    DownloadCommandDecodes(blockSize, blockCount, bpBytes, index, data);
  }

  lemma ReadWords(s: Storage, p: nat, block: nat)
    requires Inv(s) && s.supported && p < 2 && block < s.blockCount
    ensures s.blockSize >= 4
    ensures var c := LogPageCommand(p, block * s.blockSize, s.blockSize);
            && c.GetLogPage? && c.cdw10 % 0x100 == 0x15 && LogPartition(c) == p
            && LogOffset(c) == 16 + block * s.blockSize && LogBytes(c) == s.blockSize
  {
    BlockFits(s.blockSize, s.blockCount, |s.dev.staging|, block);
    BlockAligned(s.blockSize, block);
    LogPageCommandDecodes(p, block * s.blockSize, s.blockSize);
  }

  // A device is supported exactly with every service and register at hand, LPEDS and the lock state
  // feature reported, and at least one block in the BPSZ units of 128 KiB; the block size is FWUG
  // pages of 4 KiB, one page if FWUG carries no restriction.
  lemma SupportIsExact(b: Probe)
    ensures var pages := if b.identify.Some? && b.identify.value.fwug != 0 && b.identify.value.fwug != 255
                         then b.identify.value.fwug as int else 1;
            Supports(b) <==>
              && b.connected && b.pciIo && b.passThru && b.cap == Some(true)
              && b.identify.Some? && b.identify.value.setLockState && b.identify.value.lpeds
              && b.bpinfo.Some? && b.bpinfo.value % 32768 > 0 && (b.bpinfo.value % 32768) * 131072 >= 4096 * pages
    ensures Supports(b) ==>
              && BlockSizeFor(b.identify.value.fwug) ==
                   4096 * (if b.identify.value.fwug in {0, 255} then 1 else b.identify.value.fwug as int)
              && PartitionBytes(b.bpinfo.value) == (b.bpinfo.value % 32768) * 131072
  {
  }

  // What a partition accepts, by its state: unlocked and locked ones any request, one locked until
  // power cycle only that again, one under RPMB control none; and an accepted request takes effect.
  lemma ProtectionTable(current: WriteProtection, field: nat)
    requires 1 <= field <= 3
    ensures Accepts(current, field) <==>
              match current
              case WriteUnlocked => true
              case WriteLocked => true
              case LockedUntilPowerCycle => field == 3
              case RpmbControlled => false
    ensures NextProtection(current, field) == [WriteUnlocked, WriteLocked, LockedUntilPowerCycle][field - 1]
    ensures Accepts(current, 0) && NextProtection(current, 0) == current
  {
  }
}
