/** The NVMe controller as the boot-partition code sees it: admin commands as packed command
    dwords, and what a conforming controller does with them (NVMe Base Specification 2.1,
    sections 8.1.3 and 5.1.25.1.32). Any command may fail, and a failed transport leaves it
    open whether the command took effect. */
module Nvme {
  import opened Bytes

  const LOG_HEADER_BYTES := 16
  const LID_BOOT_PARTITION := 0x15
  const FID_BP_WRITE_PROTECTION := 0x85
  const DOWNLOAD_BP_DATA := 1
  const COMMIT_ACTION_DOWNLOAD_BP := 6

  /** Boot partition write protection state. */
  datatype WriteProtection = WriteUnlocked | WriteLocked | LockedUntilPowerCycle | RpmbControlled

  /** `staging` is the temporary location a download fills; a commit moves it to a partition. */
  datatype Device = Device(header: seq<byte>, bp: seq<seq<byte>>, staging: seq<byte>, wp: seq<WriteProtection>)
  {
    ghost predicate Valid() {
      && |header| == LOG_HEADER_BYTES
      && |bp| == 2 && |wp| == 2
      && |bp[0]| == |staging| && |bp[1]| == |staging|
    }
  }

  datatype Command =
    | SetFeatures(cdw10: u32, cdw11: u32)
    | GetLogPage(cdw10: u32, cdw11: u32, cdw12: u32, cdw13: u32)
    | FirmwareDownload(cdw10: u32, cdw11: u32, cdw12: u32, data: seq<byte>)
    | FirmwareCommit(cdw10: u32)

  /** How the environment lets one command end. After a transport error the host cannot know
      whether the command took effect; of a download, the first `landed` bytes may have arrived. */
  datatype Outcome = Executed | Rejected | TransportError(tookEffect: bool, landed: nat)

  /** What the host sees: a clean completion with the data read, a completion carrying a nonzero
      status code, or a pass-thru call that failed. */
  datatype Reply = Completed(data: seq<byte>) | StatusError | NoTransport

  datatype Effect = Refused | Done(dev: Device, data: seq<byte>)

  /** The 3-bit BPxWPS field of CDW11 for one partition: 0 requests no change. */
  function RequestedField(cdw11: u32, p: nat): nat
    requires p < 2
  {
    if p == 0 then cdw11 % 8 else (cdw11 / 8) % 8
  }

  /** A partition accepts a requested state unless it is frozen in a different one. */
  predicate Accepts(current: WriteProtection, field: nat) {
    || field == 0
    || (field == 3 && current == LockedUntilPowerCycle)
    || (1 <= field <= 3 && (current == WriteUnlocked || current == WriteLocked))
  }

  function NextProtection(current: WriteProtection, field: nat): WriteProtection {
    if field == 1 then WriteUnlocked
    else if field == 2 then WriteLocked
    else if field == 3 then LockedUntilPowerCycle
    else current
  }

  function ApplySetFeatures(d: Device, c: Command): Effect
    requires d.Valid() && c.SetFeatures?
  {
    var f0, f1 := RequestedField(c.cdw11, 0), RequestedField(c.cdw11, 1);
    if c.cdw10 % 0x100 == FID_BP_WRITE_PROTECTION && Accepts(d.wp[0], f0) && Accepts(d.wp[1], f1) then
      Done(d.(wp := [NextProtection(d.wp[0], f0), NextProtection(d.wp[1], f1)]), [])
    else
      Refused
  }

  function DownloadOffset(c: Command): nat
    requires c.FirmwareDownload?
  {
    c.cdw11 * 4
  }

  /** NUMD is a zero-based dword count and OFST a dword offset. */
  predicate DownloadFits(d: Device, c: Command)
    requires c.FirmwareDownload?
  {
    && c.cdw12 == DOWNLOAD_BP_DATA
    && |c.data| == (c.cdw10 + 1) * 4
    && DownloadOffset(c) + |c.data| <= |d.staging|
  }

  function ApplyDownload(d: Device, c: Command): Effect
    requires d.Valid() && c.FirmwareDownload?
  {
    if DownloadFits(d, c) then
      Done(d.(staging := Splice(d.staging, DownloadOffset(c), c.data)), [])
    else
      Refused
  }

  function CommitTarget(c: Command): nat
    requires c.FirmwareCommit?
    ensures CommitTarget(c) < 2
  {
    c.cdw10 / 0x8000_0000
  }

  function ApplyCommit(d: Device, c: Command): Effect
    requires d.Valid() && c.FirmwareCommit?
  {
    var p := CommitTarget(c);
    if (c.cdw10 / 8) % 8 == COMMIT_ACTION_DOWNLOAD_BP && d.wp[p] == WriteUnlocked then
      Done(d.(bp := d.bp[p := d.staging]), [])
    else
      Refused
  }

  /** The log offset (LPOL, LPOU) and byte count (NUMDL, NUMDU) a Get Log Page command asks for. */
  function LogOffset(c: Command): nat
    requires c.GetLogPage?
  {
    c.cdw12 + c.cdw13 * 0x1_0000_0000
  }

  function LogBytes(c: Command): nat
    requires c.GetLogPage?
  {
    (c.cdw10 / 0x1_0000 + (c.cdw11 % 0x1_0000) * 0x1_0000 + 1) * 4
  }

  /** The low bit of the log-specific field selects the partition. */
  function LogPartition(c: Command): nat
    requires c.GetLogPage?
    ensures LogPartition(c) < 2
  {
    (c.cdw10 / 0x100) % 2
  }

  function ApplyGetLogPage(d: Device, c: Command): Effect
    requires d.Valid() && c.GetLogPage?
  {
    var log := d.header + d.bp[LogPartition(c)];
    if c.cdw10 % 0x100 == LID_BOOT_PARTITION && LogOffset(c) + LogBytes(c) <= |log| then
      Done(d, log[LogOffset(c)..LogOffset(c) + LogBytes(c)])
    else
      Refused
  }

  /** What the controller does when it carries a command out. */
  function Perform(d: Device, c: Command): (e: Effect)
    requires d.Valid()
    ensures e.Done? ==> e.dev.Valid() && |e.dev.staging| == |d.staging|
  {
    match c
    case SetFeatures(_, _) => ApplySetFeatures(d, c)
    case GetLogPage(_, _, _, _) => ApplyGetLogPage(d, c)
    case FirmwareDownload(_, _, _, _) => ApplyDownload(d, c)
    case FirmwareCommit(_) => ApplyCommit(d, c)
  }

  /** A transfer that broke off part-way: some leading bytes of a download may be staged. */
  function Broken(d: Device, c: Command, landed: nat): (r: Device)
    requires d.Valid()
    ensures r.Valid() && |r.staging| == |d.staging|
  {
    if c.FirmwareDownload? && DownloadFits(d, c) then
      var n := if landed < |c.data| then landed else |c.data|;
      d.(staging := Splice(d.staging, DownloadOffset(c), c.data[..n]))
    else
      d
  }

  function Execute(d: Device, c: Command, o: Outcome): (r: (Device, Reply))
    requires d.Valid()
    ensures r.0.Valid() && |r.0.staging| == |d.staging|
  {
    match o
    case Rejected => (d, StatusError)
    case Executed =>
      (match Perform(d, c)
       case Refused => (d, StatusError)
       case Done(d', data) => (d', Completed(data)))
    case TransportError(tookEffect, landed) =>
      var e := Perform(d, c);
      (if tookEffect && e.Done? then e.dev else Broken(d, c, landed), NoTransport)
  }

  /** The controller carried the command out, whether or not the host heard of it. */
  predicate TookEffect(o: Outcome) {
    o == Executed || (o.TransportError? && o.tookEffect)
  }

  /** The controller behind the pass-thru protocol. The oracle fixes how each command ends, so a
      statement about every oracle covers every pattern of failures; `trail` keeps the device as it
      was after each command, so a statement about `trail` covers a stop after any command. */
  class Controller {
    const oracle: nat -> Outcome
    var dev: Device
    var tick: nat
    ghost var trail: seq<Device>

    ghost predicate Valid()
      reads this
    {
      dev.Valid()
    }

    constructor (dev: Device, oracle: nat -> Outcome)
      requires dev.Valid()
      ensures Valid() && this.dev == dev && this.oracle == oracle && tick == 0 && trail == []
    {
      this.dev, this.oracle, this.tick, this.trail := dev, oracle, 0, [];
    }

    method Submit(c: Command) returns (r: Reply)
      requires Valid()
      modifies this
      ensures Valid()
      ensures (dev, r) == Execute(old(dev), c, oracle(old(tick)))
      ensures tick == old(tick) + 1
      ensures trail == old(trail) + [dev]
    {
      var step := Execute(dev, c, oracle(tick));
      dev, r, tick := step.0, step.1, tick + 1;
      trail := trail + [dev];
    }
  }

  // Nothing is assumed of a failed transport: the command may have had no effect, its whole effect, or,
  // for a download, any number of leading bytes may have been staged; and the host hears only of the
  // failure.
  lemma FailureIsOpen(d: Device, c: Command, landed: nat)
    requires d.Valid() && Perform(d, c).Done?
    ensures Execute(d, c, TransportError(true, landed)) == (Perform(d, c).dev, NoTransport)
    ensures !c.FirmwareDownload? || landed == 0 ==> Execute(d, c, TransportError(false, landed)) == (d, NoTransport)
    ensures c.FirmwareDownload? && landed <= |c.data| ==>
              var at := c.cdw11 * 4;
              && at + landed <= |d.staging|
              && Execute(d, c, TransportError(false, landed))
                 == (d.(staging := d.staging[..at] + c.data[..landed] + d.staging[at + landed..]), NoTransport)
    ensures Execute(d, c, Rejected) == (d, StatusError)
  {
    if c.FirmwareDownload? && landed == 0 {
      assert d.staging[..c.cdw11 * 4] + [] + d.staging[c.cdw11 * 4..] == d.staging;
    }
  }

  // A command other than a commit never changes a partition.
  lemma OnlyCommitChangesPartitions(d: Device, c: Command, o: Outcome)
    requires d.Valid()
    ensures !c.FirmwareCommit? ==> Execute(d, c, o).0.bp == d.bp
  {
  }

  // A command other than Set Features never changes a lock.
  lemma OnlySetFeaturesChangesLocks(d: Device, c: Command, o: Outcome)
    requires d.Valid()
    ensures !c.SetFeatures? ==> Execute(d, c, o).0.wp == d.wp
  {
  }

  // A commit changes only its target, and only to the staged bytes, whatever the outcome.
  lemma CommitIsAllOrNothing(d: Device, c: Command, o: Outcome)
    requires d.Valid() && c.FirmwareCommit?
    ensures var d' := Execute(d, c, o).0;
            var p := CommitTarget(c);
            && d'.bp[1 - p] == d.bp[1 - p]
            && (d'.bp[p] == d.bp[p] || (d'.bp[p] == d.staging && d.wp[p] == WriteUnlocked))
            && d'.staging == d.staging && d'.wp == d.wp
  {
  }

  // A partition locked until power cycle keeps its bytes and its lock under every command.
  lemma FrozenPartition(d: Device, c: Command, o: Outcome, p: nat)
    requires d.Valid() && p < 2 && d.wp[p] == LockedUntilPowerCycle
    ensures var d' := Execute(d, c, o).0;
            d'.wp[p] == LockedUntilPowerCycle && d'.bp[p] == d.bp[p]
  {
    if c.FirmwareCommit? {
      CommitIsAllOrNothing(d, c, o);
    } else {
      OnlyCommitChangesPartitions(d, c, o);
    }
  }
}
