/** The FMP device library: streams a capsule image to both boot partitions, reports the installed
    version, and locks the partitions before OS handoff. */
module SreFmp {
  import opened Arithmetic
  import opened Bytes
  import opened Efi
  import opened Nvme
  import opened SreStorage
  import opened SreImage

  datatype LastAttempt = LastAttemptSuccess | InvalidFormat | Unsuccessful

  /** What a complete update leaves on a partition: the image block for block, then whatever the
      staging area held past the last whole block. */
  ghost function Installed(d: Device, image: seq<byte>, version: u32, n: nat): seq<byte>
    requires |image| <= n && IMAGE_INFO_OFFSET + IMAGE_INFO_BYTES <= n <= |d.staging|
  {
    Complete(image, version, n) + d.staging[n..]
  }

  /** Each partition of `d` is as in `before` or holds `content`. */
  ghost predicate AllOrNothing(d: Device, before: Device, content: seq<byte>)
    requires d.Valid() && before.Valid()
  {
    && (d.bp[0] == before.bp[0] || d.bp[0] == content)
    && (d.bp[1] == before.bp[1] || d.bp[1] == content)
  }

  /** While partition `p` is updated the other one keeps its bytes and its lock. */
  ghost predicate OneUpdated(d: Device, before: Device, p: nat, content: seq<byte>)
    requires before.Valid() && p < 2
  {
    && d.Valid()
    && d.bp[1 - p] == before.bp[1 - p] && d.wp[1 - p] == before.wp[1 - p]
    && (d.bp[p] == before.bp[p] || d.bp[p] == content)
  }

  /** Every device the trail gained since `start` is `before` with at most `p` updated. */
  ghost predicate Track(trail: seq<Device>, start: seq<Device>, before: Device, p: nat, content: seq<byte>)
    requires before.Valid() && p < 2
  {
    && start <= trail
    && forall k | |start| <= k < |trail| :: OneUpdated(trail[k], before, p, content)
  }

  lemma TrackStep(trail: seq<Device>, more: seq<Device>, start: seq<Device>, before: Device, p: nat, content: seq<byte>)
    requires before.Valid() && p < 2 && Track(trail, start, before, p, content)
    requires forall k | 0 <= k < |more| :: OneUpdated(more[k], before, p, content)
    ensures Track(trail + more, start, before, p, content)
  {
  }

  /** The reports since the first `from` never fall and lie between `lo` and `hi`. */
  ghost predicate Rising(reported: seq<nat>, from: nat, lo: nat, hi: nat) {
    && from <= |reported|
    && (forall i | from <= i < |reported| :: lo <= reported[i] <= hi)
    && forall i, j | from <= i < j < |reported| :: reported[i] <= reported[j]
  }

  /** The percentage reported before block `block` of partition `p`. */
  function Percent(p: nat, block: nat, blockCount: nat): nat
    requires 0 < blockCount
  {
    (block * 50) / blockCount + p * 50
  }

  lemma PercentIs(p: nat, block: nat, blockCount: nat)
    requires 0 < blockCount
    ensures Percent(p, block, blockCount) == (block * 50) / blockCount + p * 50
  {
  }

  /** The image bytes used up by the blocks before `block`. */
  function Consumed(block: nat, blockSize: nat, imageBytes: nat): (pos: nat)
    ensures pos <= imageBytes && (block == 0 ==> pos == 0)
  {
    if block * blockSize < imageBytes then block * blockSize else imageBytes
  }

  lemma ConsumedNext(block: nat, blockSize: nat, imageBytes: nat, take: nat)
    requires var left := imageBytes - Consumed(block, blockSize, imageBytes);
             take == if left < blockSize then left else blockSize
    ensures Consumed(block + 1, blockSize, imageBytes) == Consumed(block, blockSize, imageBytes) + take
  {
    NextMultiple(block, blockSize);
  }

  /** No report made before block `block` exceeds this. */
  function Ceiling(p: nat, block: nat, blockCount: nat): nat {
    if block < blockCount then Percent(p, block, blockCount) else p * 50 + 50
  }

  // The report made at a block keeps the reports rising.
  lemma ReportRises(reported: seq<nat>, from: nat, p: nat, block: nat, blockCount: nat)
    requires block < blockCount && Rising(reported, from, p * 50, Ceiling(p, block, blockCount))
    ensures Ceiling(p, block + 1, blockCount) <= p * 50 + 50
    ensures Rising(reported, from, p * 50, Ceiling(p, block + 1, blockCount))
    ensures Rising(reported + [Percent(p, block, blockCount)], from, p * 50, Ceiling(p, block + 1, blockCount))
  {
    PercentGrows(p, block, blockCount);
  }

  lemma PercentGrows(p: nat, block: nat, blockCount: nat)
    requires block < blockCount
    ensures p * 50 <= Percent(p, block, blockCount) <= Percent(p, block + 1, blockCount) <= p * 50 + 50
  {
    DivMonotone(block * 50, (block + 1) * 50, blockCount);
    DivMonotone((block + 1) * 50, blockCount * 50, blockCount);
    DivMonotone(0, block * 50, blockCount);
    DivUnique(blockCount * 50, blockCount, 50, 0);
  }

  /** The percentage of every block before `block` has been reported since the first `from` reports, but
      for one that repeats the percentage `first` of before; and the last one is remembered. */
  ghost predicate EachReported(reported: seq<nat>, from: nat, last: int, first: int, p: nat, block: nat, blockCount: nat) {
    && from <= |reported| && block <= blockCount
    && (block > 0 ==> last == Percent(p, block - 1, blockCount)) && (block == 0 ==> last == first)
    && forall b | 0 <= b < block :: Percent(p, b, blockCount) == first || Percent(p, b, blockCount) in reported[from..]
  }

  lemma NoneReported(reported: seq<nat>, last: int, p: nat, blockCount: nat)
    ensures EachReported(reported, |reported|, last, last, p, 0, blockCount)
  {
  }

  lemma ReportNext(reported: seq<nat>, from: nat, last: int, first: int, p: nat, block: nat, blockCount: nat)
    requires block < blockCount && EachReported(reported, from, last, first, p, block, blockCount)
    ensures var percent := Percent(p, block, blockCount);
            if percent == last then EachReported(reported, from, last, first, p, block + 1, blockCount)
            else EachReported(reported + [percent], from, percent, first, p, block + 1, blockCount)
  {
    hide Percent;
    var percent := Percent(p, block, blockCount);
    var more := (reported + [percent])[from..];
    assert more == reported[from..] + [percent];
    assert more[|more| - 1] == percent;
  }

  lemma ReportMore(reported: seq<nat>, x: nat, from: nat, last: int, first: int, p: nat, block: nat, blockCount: nat)
    requires EachReported(reported, from, last, first, p, block, blockCount)
    ensures EachReported(reported + [x], from, last, first, p, block, blockCount)
  {
    assert (reported + [x])[from..] == reported[from..] + [x];
  }

  /** The reports of one apply up to block `block`, those in `begun` made before it. */
  ghost predicate Progress(reported: seq<nat>, last: int, begun: seq<nat>, first: int, p: nat, block: nat, blockCount: nat, notify: bool) {
    && begun <= reported && Rising(reported, |begun|, p * 50, Ceiling(p, block, blockCount))
    && (notify ==> EachReported(reported, |begun|, last, first, p, block, blockCount))
    && (!notify ==> reported == begun)
  }

  lemma ProgressBegins(reported: seq<nat>, last: int, p: nat, blockCount: nat, notify: bool)
    ensures Progress(reported, last, reported, last, p, 0, blockCount, notify)
  {
    NoneReported(reported, last, p, blockCount);
  }

  // The final report of an apply closes its progress.
  lemma ProgressEnds(reported: seq<nat>, last: int, begun: seq<nat>, first: int, p: nat, blockCount: nat, notify: bool)
    requires Progress(reported, last, begun, first, p, blockCount, blockCount, notify)
    ensures var all := if notify then reported + [p * 50 + 50] else reported;
            && begun <= all && Rising(all, |begun|, p * 50, p * 50 + 50) && (!notify ==> all == begun)
            && (notify ==> forall b | 0 <= b < blockCount ::
                  var percent := (b * 50) / blockCount + p * 50; percent == first || percent in all[|begun|..])
  {
    if notify {
      ReportMore(reported, p * 50 + 50, |begun|, last, first, p, blockCount, blockCount);
      AllReported(reported + [p * 50 + 50], |begun|, last, first, p, blockCount);
    }
  }

  lemma ProgressSoFar(reported: seq<nat>, last: int, begun: seq<nat>, first: int, p: nat, block: nat, blockCount: nat, notify: bool)
    requires block <= blockCount && Progress(reported, last, begun, first, p, block, blockCount, notify)
    ensures begun <= reported && Rising(reported, |begun|, p * 50, p * 50 + 50) && (!notify ==> reported == begun)
  {
    if block < blockCount { PercentGrows(p, block, blockCount); }
  }

  lemma AllReported(reported: seq<nat>, from: nat, last: int, first: int, p: nat, blockCount: nat)
    requires EachReported(reported, from, last, first, p, blockCount, blockCount)
    ensures from <= |reported|
    ensures forall b | 0 <= b < blockCount ::
              var percent := (b * 50) / blockCount + p * 50; percent == first || percent in reported[from..]
  {
    forall b | 0 <= b < blockCount
      ensures var percent := (b * 50) / blockCount + p * 50; percent == first || percent in reported[from..]
    {
      PercentIs(p, b, blockCount);
    }
  }

  /** A call of the storage library or of the FMP library. */
  datatype ApiCall =
    | StorageCall(call: Call)
    | Set(image: seq<byte>, version: u32, addrA: nat, addrB: nat, notify: bool, setVariable: bool)
    | Version(addr: nat)
    | Check(image: seq<byte>)
    | LockAll

  class FmpDeviceLib {
    const storage: StorageLib
    /** The static of SreProgress; -1 stands for its initial all-ones value. */
    var lastPercent: int
    /** The calls made to the caller's progress function. */
    var reported: seq<nat>
    /** The LastAttemptStatus variable. */
    var lastAttempt: Option<(LastAttempt, u32)>

    ghost predicate Valid()
      reads storage, storage.ctrl
    {
      storage.Valid()
    }

    /** The bytes the whole blocks of a partition hold. */
    ghost function WholeBytes(): nat
      reads storage
    {
      storage.blockCount * storage.blockSize
    }

    constructor (storage: StorageLib)
      requires storage.Valid()
      ensures this.storage == storage && Valid() && lastAttempt == None
    {
      this.storage, lastPercent, reported, lastAttempt := storage, -1, [], None;
    }

    method SreProgress(p: nat, block: nat, blockCount: nat, notify: bool)
      requires 0 < blockCount
      modifies this`lastPercent, this`reported
      ensures var percent := (block * 50) / blockCount + p * 50;
              if notify && percent != old(lastPercent) then reported == old(reported) + [percent] && lastPercent == percent
              else reported == old(reported) && lastPercent == old(lastPercent)
    {
      if notify {
        var percent := (block * 50) / blockCount + p * 50;
        if percent != lastPercent {
          reported := reported + [percent];
          lastPercent := percent;
        }
      }
    }

    /** The report before block `block` of an apply. */
    method ReportBlock(p: nat, block: nat, blockCount: nat, notify: bool, ghost begun: seq<nat>, ghost first: int)
      requires block < blockCount && Progress(reported, lastPercent, begun, first, p, block, blockCount, notify)
      modifies this`lastPercent, this`reported
      ensures Progress(reported, lastPercent, begun, first, p, block + 1, blockCount, notify)
    {
      hide Rising;
      hide EachReported;
      hide Percent;
      hide Ceiling;
      if notify {
        ReportNext(reported, |begun|, lastPercent, first, p, block, blockCount);
      }
      ReportRises(reported, |begun|, p, block, blockCount);
      PercentIs(p, block, blockCount);
      SreProgress(p, block, blockCount, notify);
    }

    /** Prepare the reusable buffer for one block: next image bytes, zero padding, descriptor. */
    method FillChunk(chunk: array<byte>, image: seq<byte>, pos: nat, take: nat, block: nat, version: u32)
      returns (st: Status)
      requires 0 < chunk.Length && take <= chunk.Length && pos + take <= |image|
      modifies chunk
      ensures var fill := image[pos..pos + take] + Zeros(chunk.Length - take);
              var at := IMAGE_INFO_OFFSET % chunk.Length;
              if block != IMAGE_INFO_OFFSET / chunk.Length then st == Success && chunk[..] == fill
              else if at + IMAGE_INFO_BYTES > chunk.Length then st == Unsupported
              else st == Success && chunk[..] == Splice(fill, at, Descriptor(version))
    {
      forall i | 0 <= i < take { chunk[i] := image[pos + i]; }
      forall i | take <= i < chunk.Length { chunk[i] := 0; }
      ghost var fill := image[pos..pos + take] + Zeros(chunk.Length - take);
      assert chunk[..] == fill;
      if block == IMAGE_INFO_OFFSET / chunk.Length {
        var at := IMAGE_INFO_OFFSET % chunk.Length;
        if at + IMAGE_INFO_BYTES > chunk.Length {
          return Unsupported;
        }
        var descriptor := Descriptor(version);
        forall i | 0 <= i < IMAGE_INFO_BYTES { chunk[at + i] := descriptor[i]; }
        assert chunk[..] == Splice(fill, at, descriptor);
      }
      return Success;
    }

    /** An open session on `p` that has staged exactly the first `block` blocks of `complete` and
        has changed neither a partition nor a lock since `before`. */
    ghost predicate Streaming(p: nat, block: nat, complete: seq<byte>, before: Device, start: seq<Device>)
      requires before.Valid()
      reads storage, storage.ctrl
    {
      var d := storage.ctrl.dev;
      && p < 2 && Valid() && storage.isWriteOpen && storage.partitionIndex == p && storage.blockIndex == block
      && |complete| == WholeBytes() <= |before.staging| && |d.staging| == |before.staging|
      && block * storage.blockSize <= |complete|
      && storage.accepted == complete[..block * storage.blockSize]
      && d.staging[|complete|..] == before.staging[|complete|..]
      && d.bp == before.bp && d.wp == before.wp
      && Track(storage.ctrl.trail, start, before, p, complete + before.staging[|complete|..])
    }

    /** The state after part or all of an update of `p`: no partition is a mixture. */
    ghost predicate Updated(p: nat, complete: seq<byte>, before: Device, start: seq<Device>)
      requires before.Valid()
      reads storage, storage.ctrl
    {
      var d := storage.ctrl.dev;
      && p < 2 && Valid() && storage.isSupported
      && |complete| == WholeBytes() <= |before.staging| && |d.staging| == |before.staging|
      && d.staging[|complete|..] == before.staging[|complete|..]
      && OneUpdated(d, before, p, complete + before.staging[|complete|..])
      && Track(storage.ctrl.trail, start, before, p, complete + before.staging[|complete|..])
    }

    /** Fill the buffer with one whole block of the complete contents. */
    method PrepareBlock(chunk: array<byte>, image: seq<byte>, version: u32, block: nat, pos: nat, take: nat,
                        ghost complete: seq<byte>, ghost bpBytes: seq<byte>)
      returns (st: Status)
      requires Valid() && storage.isSupported && |bpBytes| == |storage.ctrl.dev.staging|
      requires block < storage.blockCount && chunk.Length == storage.blockSize
      requires |image| <= WholeBytes() && IMAGE_INFO_OFFSET + IMAGE_INFO_BYTES <= WholeBytes()
      requires complete == Complete(image, version, WholeBytes())
      requires pos == Consumed(block, storage.blockSize, |image|)
      requires take == (if |image| - pos < storage.blockSize then |image| - pos else storage.blockSize)
      modifies chunk
      ensures st == Success && StagedNext(complete, block, chunk.Length, chunk[..])
    {
      var bs := storage.blockSize;
      assert GeometryOk(bs, storage.blockCount, |bpBytes|) && |complete| == storage.blockCount * bs;
      assert pos == (if block * bs < |image| then block * bs else |image|);
      hide *;
      BlockFits(bs, storage.blockCount, |bpBytes|, block);
      DescriptorInOneBlock(bs, storage.blockCount, |bpBytes|);
      PaddedBlock(image, |complete|, block * bs, bs);
      ghost var fill := Padded(image, |complete|)[block * bs..block * bs + bs];
      assert fill == image[pos..pos + take] + Zeros(chunk.Length - take);
      st := FillChunk(chunk, image, pos, take, block, version);
      ChunkIsBlock(image, version, |complete|, block, bs, chunk[..]);
      NextBlock(complete, block, bs, chunk[..]);
    }

    /** One round of the block loop: fill the buffer and write it. */
    method StreamBlock(p: nat, block: nat, image: seq<byte>, pos: nat, take: nat, version: u32,
                       chunk: array<byte>, addr: nat,
                       ghost complete: seq<byte>, ghost before: Device, ghost start: seq<Device>)
      returns (st: Status)
      requires before.Valid() && Streaming(p, block, complete, before, start)
      requires block < storage.blockCount && chunk.Length == storage.blockSize
      requires |image| <= WholeBytes() && IMAGE_INFO_OFFSET + IMAGE_INFO_BYTES <= WholeBytes()
      requires complete == Complete(image, version, WholeBytes())
      requires pos == Consumed(block, storage.blockSize, |image|)
      requires take == (if |image| - pos < storage.blockSize then |image| - pos else storage.blockSize)
      modifies storage, storage.ctrl, chunk
      ensures Streaming(p, if st == Success then block + 1 else block, complete, before, start)
      ensures old(storage.Healthy()) ==> storage.Healthy()
      ensures old(storage.Healthy()) && old(Usable(storage.Abs(), addr)) ==> st == Success
      ensures storage.blockSize == old(storage.blockSize) && storage.blockCount == old(storage.blockCount)
      ensures storage.blockAlignment == old(storage.blockAlignment)
    {
      var bs := storage.blockSize;
      st := PrepareBlock(chunk, image, version, block, pos, take, complete, before.staging);
      if st != Success {
        return;
      }
      assert StagedNext(complete, block, bs, chunk[..]);
      WriteFacts(storage.Abs(), addr, chunk[..], storage.ctrl.oracle(storage.ctrl.tick));
      TrackStep(storage.ctrl.trail, storage.Trace(Write(addr, chunk[..])), start, before, p,
                complete + before.staging[|complete|..]);
      st := storage.WriteBlock(addr, chunk[..]);
    }

    // A session that has staged part of the contents has changed nothing yet.
    lemma StreamingIsUpdated(p: nat, block: nat, complete: seq<byte>, before: Device, start: seq<Device>)
      requires before.Valid() && Streaming(p, block, complete, before, start)
      ensures Updated(p, complete, before, start) && storage.isWriteOpen && storage.partitionIndex == p
      ensures storage.ctrl.dev.wp == before.wp && |start| <= |storage.ctrl.trail|
    {
    }

    /** The block loop and the commit, inside an open session. */
    method Stream(p: nat, image: seq<byte>, version: u32, chunk: array<byte>, addr: nat, notify: bool,
                  ghost complete: seq<byte>, ghost before: Device, ghost start: seq<Device>)
      returns (st: Status)
      requires before.Valid() && Streaming(p, 0, complete, before, start)
      requires |image| <= WholeBytes() && IMAGE_INFO_OFFSET + IMAGE_INFO_BYTES <= WholeBytes()
      requires complete == Complete(image, version, WholeBytes())
      requires chunk.Length == storage.blockSize
      modifies this`lastPercent, this`reported, storage, storage.ctrl, chunk
      ensures Updated(p, complete, before, start)
      ensures storage.blockSize == old(storage.blockSize) && storage.blockCount == old(storage.blockCount)
      ensures storage.blockAlignment == old(storage.blockAlignment)
      ensures st == Success ==>
                !storage.isWriteOpen && storage.ctrl.dev.bp[p] == complete + before.staging[|complete|..]
      ensures st != Success ==> storage.isWriteOpen && storage.partitionIndex == p
      ensures storage.ctrl.dev.wp == before.wp && |start| <= |storage.ctrl.trail|
      ensures old(storage.Healthy()) ==> storage.Healthy()
      ensures old(storage.Healthy()) && old(Usable(storage.Abs(), addr)) ==> st == Success
      ensures Rising(reported, |old(reported)|, p * 50, p * 50 + 50) && old(reported) <= reported
      ensures st == Success && notify ==> reported != [] && reported[|reported| - 1] == p * 50 + 50
      // No percentage is left out, and without a callback nothing is reported.
      ensures st == Success && notify ==>
                forall b | 0 <= b < storage.blockCount ::
                  var percent := (b * 50) / storage.blockCount + p * 50;
                  percent == old(lastPercent) || percent in reported[|old(reported)|..]
      ensures !notify ==> reported == old(reported)
    {
      hide Streaming;
      hide Updated;
      hide Complete;
      hide Consumed;
      hide Progress;
      hide Rising;
      ghost var begun, first := reported, lastPercent;
      var blockCount, blockSize := storage.blockCount, storage.blockSize;
      var pos, remaining := 0, |image|;
      ProgressBegins(reported, lastPercent, p, blockCount, notify);
      for block := 0 to blockCount
        invariant Streaming(p, block, complete, before, start)
        invariant storage.blockCount == blockCount && storage.blockSize == blockSize
        invariant storage.blockAlignment == old(storage.blockAlignment)
        invariant old(storage.Healthy()) ==> storage.Healthy()
        invariant pos == Consumed(block, blockSize, |image|)
        invariant remaining == |image| - pos
        invariant Progress(reported, lastPercent, begun, first, p, block, blockCount, notify)
      {
        ReportBlock(p, block, blockCount, notify, begun, first);
        var take := if remaining < blockSize then remaining else blockSize;
        st := StreamBlock(p, block, image, pos, take, version, chunk, addr, complete, before, start);
        if st != Success {
          StreamingIsUpdated(p, block, complete, before, start);
          ProgressSoFar(reported, lastPercent, begun, first, p, block + 1, blockCount, notify);
          return;
        }
        ConsumedNext(block, blockSize, |image|, take);
        pos, remaining := pos + take, remaining - take;
      }
      ProgressEnds(reported, lastPercent, begun, first, p, blockCount, notify);
      if notify {
        reported := reported + [p * 50 + 50];
      }
      StreamingIsUpdated(p, blockCount, complete, before, start);
      st := Commit(p, complete, before, start);
    }

    /** The commit of a session that has staged everything. */
    method Commit(p: nat, ghost complete: seq<byte>, ghost before: Device, ghost start: seq<Device>) returns (st: Status)
      requires before.Valid() && Streaming(p, storage.blockCount, complete, before, start)
      modifies storage, storage.ctrl
      ensures Updated(p, complete, before, start)
      ensures storage.blockSize == old(storage.blockSize) && storage.blockCount == old(storage.blockCount)
      ensures storage.blockAlignment == old(storage.blockAlignment)
      ensures st == Success ==>
                !storage.isWriteOpen && storage.ctrl.dev.bp[p] == complete + before.staging[|complete|..]
      ensures st != Success ==> storage.isWriteOpen && storage.partitionIndex == p
      ensures storage.ctrl.dev.wp == old(storage.ctrl.dev).wp && |start| <= |storage.ctrl.trail|
      ensures old(storage.Healthy()) ==> storage.Healthy() && st == Success
    {
      ghost var content := complete + before.staging[|complete|..];
      assert storage.ctrl.dev.staging == content by {
        assert storage.accepted == complete;
      }
      CloseFacts(storage.Abs(), storage.ctrl.oracle(storage.ctrl.tick));
      TrackStep(storage.ctrl.trail, storage.Trace(Close), start, before, p, content);
      st := storage.WriteClose();
    }

    /** Both partitions locked until power cycle and no session open. */
    ghost predicate Frozen()
      reads storage, storage.ctrl
    {
      && Valid() && !storage.isWriteOpen
      && storage.ctrl.dev.wp == [LockedUntilPowerCycle, LockedUntilPowerCycle]
    }

    /** Nothing but a failing command or allocation stands in the way of updating `p`. */
    ghost predicate Updatable(p: nat)
      requires p < 2 && Valid()
      reads storage, storage.ctrl
    {
      storage.isSupported && !storage.isWriteOpen && Accepts(storage.ctrl.dev.wp[p], 1)
    }

    /** The buffer AllocateAlignedPages returned: 0 for NULL, else aligned as asked. */
    ghost predicate Allocated(addr: nat)
      reads storage
    {
      storage.isSupported ==> storage.blockAlignment > 0 && addr % storage.blockAlignment == 0
    }

    method ApplyWimToSreStorage(p: nat, image: seq<byte>, version: u32, addr: nat, notify: bool) returns (st: Status)
      requires Valid() && p < 2 && Allocated(addr)
      requires storage.isSupported ==> |image| <= WholeBytes()
      modifies this`lastPercent, this`reported, storage, storage.ctrl
      ensures Valid() && storage.isSupported == old(storage.isSupported) && WholeBytes() == old(WholeBytes())
      ensures storage.blockSize == old(storage.blockSize) && storage.blockCount == old(storage.blockCount)
      ensures storage.blockAlignment == old(storage.blockAlignment)
      // A session is left open exactly when one was open on entry.
      ensures storage.isWriteOpen == old(storage.isWriteOpen)
      ensures old(storage.isWriteOpen) || !storage.isSupported ==>
                st != Success && storage.ctrl.dev == old(storage.ctrl.dev) && storage.ctrl.trail == old(storage.ctrl.trail)
      ensures storage.isSupported ==>
                && IMAGE_INFO_OFFSET + IMAGE_INFO_BYTES <= WholeBytes()
                && Updated(p, Complete(image, version, WholeBytes()), old(storage.ctrl.dev), old(storage.ctrl.trail))
      ensures st == Success ==>
                && storage.isSupported && WholeBytes() <= |old(storage.ctrl.dev).staging|
                && storage.ctrl.dev.bp[p] == Installed(old(storage.ctrl.dev), image, version, WholeBytes())
      ensures !storage.isSupported ==> st == Unsupported
      ensures storage.isSupported && addr == 0 ==>
                && st == OutOfResources
                && storage.ctrl.dev == old(storage.ctrl.dev) && storage.ctrl.trail == old(storage.ctrl.trail)
      ensures storage.isSupported && addr != 0 && old(storage.isWriteOpen) ==> st == Aborted
      // A commit leaves the partition unlocked; an update that fails after its session was opened
      // leaves it locked again exactly if the relock request takes effect.
      ensures st == Success ==> storage.ctrl.dev.wp[p] == WriteUnlocked
      ensures st != Success && |storage.ctrl.trail| > |old(storage.ctrl.trail)| + 1 ==>
                storage.ctrl.tick > 0 && storage.ctrl.dev.wp[p] == Relocked(storage.ctrl.oracle(storage.ctrl.tick - 1))
      // It succeeds whenever the controller carries the commands out and the partition can be unlocked.
      ensures old(storage.Healthy()) ==> storage.Healthy()
      ensures old(storage.Healthy()) ==> (st == Success <==> old(Updatable(p)) && addr != 0)
      ensures old(Frozen()) ==>
                && st != Success && Frozen() && storage.ctrl.dev.bp == old(storage.ctrl.dev.bp)
                && Unchanged(storage.ctrl.trail, old(storage.ctrl.trail), old(storage.ctrl.dev))
      ensures Rising(reported, |old(reported)|, p * 50, p * 50 + 50) && old(reported) <= reported
      ensures st == Success && notify ==> reported != [] && reported[|reported| - 1] == p * 50 + 50
    {
      if !storage.isSupported {
        return Unsupported;
      }
      ghost var before, start, n := storage.ctrl.dev, storage.ctrl.trail, WholeBytes();
      DescriptorInOneBlock(storage.blockSize, storage.blockCount, |before.staging|);
      BlockFits(storage.blockSize, storage.blockCount, |before.staging|, 0);
      ghost var complete := Complete(image, version, n);
      NothingUpdated(p, complete, before, start);
      hide GeometryOk;
      hide Complete;
      if addr == 0 {
        return OutOfResources;
      }
      st := OpenSession(p, complete);
      if st != Success {
        return;
      }
      st := StreamOrAbort(p, image, version, addr, notify, complete, before, start);
    }

    lemma NothingUpdated(p: nat, complete: seq<byte>, before: Device, start: seq<Device>)
      requires p < 2 && Valid() && storage.isSupported && before == storage.ctrl.dev && start == storage.ctrl.trail
      requires |complete| == WholeBytes() <= |before.staging|
      ensures Updated(p, complete, before, start)
    {
    }

    /** Unlock the partition and start its session. */
    method OpenSession(p: nat, ghost complete: seq<byte>) returns (st: Status)
      requires p < 2 && Valid() && storage.isSupported && |complete| == WholeBytes() <= |storage.ctrl.dev.staging|
      modifies storage, storage.ctrl
      ensures storage.isSupported && storage.blockSize == old(storage.blockSize)
      ensures storage.blockCount == old(storage.blockCount) && storage.blockAlignment == old(storage.blockAlignment)
      ensures storage.ctrl.dev.Valid() && storage.ctrl.dev.bp == old(storage.ctrl.dev.bp)
      ensures storage.ctrl.dev.staging == old(storage.ctrl.dev.staging)
      ensures storage.ctrl.dev.wp[1 - p] == old(storage.ctrl.dev).wp[1 - p]
      ensures st == Success ==>
                && !old(storage.isWriteOpen) && Streaming(p, 0, complete, storage.ctrl.dev, storage.ctrl.trail)
                && storage.ctrl.trail == old(storage.ctrl.trail) + [storage.ctrl.dev]
      ensures st != Success ==>
                && Updated(p, complete, old(storage.ctrl.dev), old(storage.ctrl.trail))
                && storage.isWriteOpen == old(storage.isWriteOpen)
                && |storage.ctrl.trail| <= |old(storage.ctrl.trail)| + 1
      ensures old(storage.isWriteOpen) ==>
                && st == Aborted
                && storage.ctrl.dev == old(storage.ctrl.dev) && storage.ctrl.trail == old(storage.ctrl.trail)
      ensures old(Frozen()) ==>
                && st != Success && Frozen()
                && Unchanged(storage.ctrl.trail, old(storage.ctrl.trail), old(storage.ctrl.dev))
      ensures old(storage.Healthy()) ==> storage.Healthy() && (st == Success <==> old(Updatable(p)))
    {
      ghost var before, start := storage.ctrl.dev, storage.ctrl.trail;
      OpenFacts(storage.Abs(), p, storage.ctrl.oracle(storage.ctrl.tick));
      TrackStep(start, storage.Trace(Open(p)), start, before, p, complete + before.staging[|complete|..]);
      st := storage.WriteOpen(p);
    }

    /** The rest of an apply once the session is open: stream and commit, or abort. */
    method StreamOrAbort(p: nat, image: seq<byte>, version: u32, addr: nat, notify: bool,
                         ghost complete: seq<byte>, ghost before: Device, ghost start: seq<Device>)
      returns (st: Status)
      requires before.Valid() && Valid() && Streaming(p, 0, complete, storage.ctrl.dev, storage.ctrl.trail)
      requires storage.ctrl.trail == start + [storage.ctrl.dev]
      requires storage.ctrl.dev.bp == before.bp && storage.ctrl.dev.staging == before.staging
      requires storage.ctrl.dev.wp[1 - p] == before.wp[1 - p]
      requires |image| <= WholeBytes() && IMAGE_INFO_OFFSET + IMAGE_INFO_BYTES <= WholeBytes()
      requires complete == Complete(image, version, WholeBytes())
      modifies this`lastPercent, this`reported, storage, storage.ctrl
      ensures Updated(p, complete, before, start) && !storage.isWriteOpen
      ensures storage.blockSize == old(storage.blockSize) && storage.blockCount == old(storage.blockCount)
      ensures storage.blockAlignment == old(storage.blockAlignment)
      ensures st == Success ==>
                storage.ctrl.dev.bp[p] == complete + before.staging[|complete|..] && storage.ctrl.dev.wp[p] == WriteUnlocked
      ensures st != Success ==>
                && storage.ctrl.tick > 0 && |storage.ctrl.trail| > |start| + 1
                && storage.ctrl.dev.wp[p] == Relocked(storage.ctrl.oracle(storage.ctrl.tick - 1))
      ensures old(storage.Healthy()) ==> storage.Healthy()
      ensures old(storage.Healthy()) && old(Usable(storage.Abs(), addr)) ==> st == Success
      ensures Rising(reported, |old(reported)|, p * 50, p * 50 + 50) && old(reported) <= reported
      ensures st == Success && notify ==> reported != [] && reported[|reported| - 1] == p * 50 + 50
    {
      ghost var unlocked := storage.ctrl.dev;
      SessionUnlocks(p, complete, unlocked, storage.ctrl.trail);
      hide *;
      var chunk := new byte[storage.blockSize];
      st := Stream(p, image, version, chunk, addr, notify, complete, unlocked, storage.ctrl.trail);
      UpdatedSince(p, complete, unlocked, before, start);
      if st != Success {
        AbandonSession(p, complete, before, start);
      }
    }

    lemma SessionUnlocks(p: nat, complete: seq<byte>, before: Device, start: seq<Device>)
      requires before.Valid() && Streaming(p, 0, complete, before, start)
      ensures p < 2 && |before.wp| == 2 && before.wp[p] == WriteUnlocked
    {
    }

    // What an update changed since the session was opened, it changed since before that.
    lemma UpdatedSince(p: nat, complete: seq<byte>, unlocked: Device, before: Device, start: seq<Device>)
      requires before.Valid() && unlocked.Valid() && Updated(p, complete, unlocked, start + [unlocked])
      requires unlocked.bp == before.bp && unlocked.staging == before.staging && unlocked.wp[1 - p] == before.wp[1 - p]
      ensures Updated(p, complete, before, start)
    {
      TrackJoin(storage.ctrl.trail, start, before, unlocked, p, complete + before.staging[|complete|..]);
    }

    /** The error path: relock the partition and close the session. */
    method AbandonSession(p: nat, ghost complete: seq<byte>, ghost before: Device, ghost start: seq<Device>)
      requires before.Valid() && Updated(p, complete, before, start)
      requires storage.isWriteOpen && storage.partitionIndex == p
      modifies storage, storage.ctrl
      ensures Updated(p, complete, before, start) && !storage.isWriteOpen
      ensures storage.blockSize == old(storage.blockSize) && storage.blockCount == old(storage.blockCount)
      ensures storage.blockAlignment == old(storage.blockAlignment)
      ensures old(storage.Healthy()) ==> storage.Healthy()
      // Write protection is restored exactly if the relock request takes effect.
      ensures storage.ctrl.tick == old(storage.ctrl.tick) + 1 && |storage.ctrl.trail| == |old(storage.ctrl.trail)| + 1
      ensures storage.ctrl.dev.wp[p] == Relocked(storage.ctrl.oracle(old(storage.ctrl.tick)))
    {
      AbortFacts(storage.Abs(), storage.ctrl.oracle(storage.ctrl.tick));
      TrackStep(storage.ctrl.trail, storage.Trace(Abort), start, before, p, complete + before.staging[|complete|..]);
      var ignored := storage.WriteAbort();
    }

    /** The image fits the whole blocks of a partition. */
    method CheckImage(image: seq<byte>) returns (st: Status, updatable: bool, attempt: LastAttempt)
      requires Valid()
      ensures st == (if image == [] then InvalidParameter else if !storage.isSupported then Unsupported else Success)
      ensures attempt == if updatable then LastAttemptSuccess else InvalidFormat
      ensures updatable <==> st == Success && |image| <= WholeBytes()
    {
      updatable, attempt := false, InvalidFormat;
      if image == [] { return InvalidParameter, updatable, attempt; }
      if !storage.isSupported { return Unsupported, updatable, attempt; }
      var bpSize := storage.blockCount * storage.blockSize;
      if |image| > bpSize { return Success, updatable, attempt; }
      return Success, true, LastAttemptSuccess;
    }

    /** One capsule: apply to partition A, then B whatever became of A, and record the attempt.
        `image` is empty for a NULL or zero-sized image. */
    method SetImage(image: seq<byte>, version: u32, addrA: nat, addrB: nat, notify: bool, setVariable: bool)
      returns (st: Status, attempt: LastAttempt)
      requires Valid() && Allocated(addrA) && Allocated(addrB)
      modifies this, storage, storage.ctrl
      ensures Valid() && storage.isSupported == old(storage.isSupported) && WholeBytes() == old(WholeBytes())
      ensures storage.isWriteOpen == old(storage.isWriteOpen)
      ensures storage.blockSize == old(storage.blockSize) && storage.blockCount == old(storage.blockCount)
      ensures storage.blockAlignment == old(storage.blockAlignment)
      // An image the check refuses leaves the device alone.
      ensures image == [] || !storage.isSupported || |image| > WholeBytes() ==>
                st != Success && storage.ctrl.dev == old(storage.ctrl.dev) && storage.ctrl.trail == old(storage.ctrl.trail)
      // Otherwise no command, and no stop after one, leaves a partition that is a mixture.
      ensures image != [] && storage.isSupported && |image| <= WholeBytes() ==>
                && IMAGE_INFO_OFFSET + IMAGE_INFO_BYTES <= WholeBytes() <= |old(storage.ctrl.dev).staging|
                && var content := Installed(old(storage.ctrl.dev), image, version, WholeBytes());
                && AllOrNothing(storage.ctrl.dev, old(storage.ctrl.dev), content)
                && NoMixture(storage.ctrl.trail, old(storage.ctrl.trail), old(storage.ctrl.dev), content)
                && (st == Success ==> storage.ctrl.dev.bp == [content, content])
                && FirstThenSecond(storage.ctrl.trail, old(storage.ctrl.trail), old(storage.ctrl.dev), storage.ctrl.dev)
      // A success leaves both partitions unlocked until they are locked before OS handoff.
      ensures st == Success ==> storage.ctrl.dev.wp == [WriteUnlocked, WriteUnlocked]
      ensures old(storage.Healthy()) ==> storage.Healthy()
      ensures old(storage.Healthy()) && old(Updatable(0)) && old(Updatable(1)) ==>
                (st == Success <==> addrA != 0 && addrB != 0 && image != [] && |image| <= WholeBytes())
      // Neither partition depends on the other: each is updated if it alone can be.
      ensures old(storage.Healthy()) && image != [] && storage.isSupported && |image| <= WholeBytes() ==>
                && (old(Updatable(0)) && addrA != 0 ==>
                      storage.ctrl.dev.bp[0] == Installed(old(storage.ctrl.dev), image, version, WholeBytes()))
                && (old(Updatable(1)) && addrB != 0 ==>
                      storage.ctrl.dev.bp[1] == Installed(old(storage.ctrl.dev), image, version, WholeBytes()))
      ensures st == (if image == [] then InvalidParameter else if attempt == LastAttemptSuccess then Success else Aborted)
      ensures attempt == InvalidFormat <==> image == [] || !storage.isSupported || |image| > WholeBytes()
      ensures st == Success <==> attempt == LastAttemptSuccess
      ensures st == Success ==> image != [] && storage.isSupported && |image| <= WholeBytes()
      ensures old(Frozen()) ==>
                && st != Success && Frozen() && storage.ctrl.dev.bp == old(storage.ctrl.dev.bp)
                && Unchanged(storage.ctrl.trail, old(storage.ctrl.trail), old(storage.ctrl.dev))
      // Progress never falls over the whole update, and ends at 100 when it succeeds.
      ensures old(reported) <= reported && Rising(reported, |old(reported)|, 0, 100)
      ensures st == Success && notify ==> reported != [] && reported[|reported| - 1] == 100
      ensures lastAttempt == if image != [] && storage.isSupported && setVariable then Some((attempt, version))
                             else old(lastAttempt)
    {
      hide Complete;
      hide Inv;
      hide AllOrNothing;
      hide NoMixture;
      assert Rising(reported, |reported|, 0, 100);
      hide Rising;
      var updatable;
      st, updatable, attempt := CheckImage(image);
      if image == [] {
        return InvalidParameter, attempt;
      }
      if st != Success {
        return Aborted, attempt;
      }
      if attempt == LastAttemptSuccess && !updatable {
        attempt := Unsuccessful;
      }
      if attempt == LastAttemptSuccess {
        var ok := ApplyToBoth(image, version, addrA, addrB, notify);
        if !ok {
          attempt := Unsuccessful;
        }
      }
      if setVariable {
        lastAttempt := Some((attempt, version));
      }
      st := if attempt == LastAttemptSuccess then Success else Aborted;
    }

    /** Apply an image that fits to partition A, then to B whatever became of A. */
    method ApplyToBoth(image: seq<byte>, version: u32, addrA: nat, addrB: nat, notify: bool) returns (ok: bool)
      requires Valid() && Allocated(addrA) && Allocated(addrB)
      requires storage.isSupported && |image| <= WholeBytes()
      modifies this`lastPercent, this`reported, storage, storage.ctrl
      ensures Valid() && storage.isSupported && WholeBytes() == old(WholeBytes())
      ensures storage.isWriteOpen == old(storage.isWriteOpen)
      ensures storage.blockSize == old(storage.blockSize) && storage.blockCount == old(storage.blockCount)
      ensures storage.blockAlignment == old(storage.blockAlignment)
      ensures IMAGE_INFO_OFFSET + IMAGE_INFO_BYTES <= WholeBytes() <= |old(storage.ctrl.dev).staging|
      ensures var content := Installed(old(storage.ctrl.dev), image, version, WholeBytes());
              && AllOrNothing(storage.ctrl.dev, old(storage.ctrl.dev), content)
              && NoMixture(storage.ctrl.trail, old(storage.ctrl.trail), old(storage.ctrl.dev), content)
              && (ok ==> storage.ctrl.dev.bp == [content, content])
      ensures FirstThenSecond(storage.ctrl.trail, old(storage.ctrl.trail), old(storage.ctrl.dev), storage.ctrl.dev)
      ensures ok ==> storage.ctrl.dev.wp == [WriteUnlocked, WriteUnlocked]
      ensures old(storage.Healthy()) ==> storage.Healthy()
      ensures old(storage.Healthy()) && old(Updatable(0)) && old(Updatable(1)) ==> (ok <==> addrA != 0 && addrB != 0)
      // Neither partition depends on the other: each is updated if it alone can be.
      ensures old(storage.Healthy()) && old(Updatable(0)) && addrA != 0 ==>
                storage.ctrl.dev.bp[0] == Installed(old(storage.ctrl.dev), image, version, WholeBytes())
      ensures old(storage.Healthy()) && old(Updatable(1)) && addrB != 0 ==>
                storage.ctrl.dev.bp[1] == Installed(old(storage.ctrl.dev), image, version, WholeBytes())
      ensures old(Frozen()) ==>
                && !ok && Frozen() && storage.ctrl.dev.bp == old(storage.ctrl.dev.bp)
                && Unchanged(storage.ctrl.trail, old(storage.ctrl.trail), old(storage.ctrl.dev))
      ensures old(reported) <= reported && Rising(reported, |old(reported)|, 0, 100)
      ensures ok && notify ==> reported != [] && reported[|reported| - 1] == 100
    {
      hide Complete;
      hide GeometryOk;
      hide SessionInv;
      ghost var before, start, n := storage.ctrl.dev, storage.ctrl.trail, WholeBytes();
      var stA := ApplyWimToSreStorage(0, image, version, addrA, notify);
      ghost var between, middle := storage.ctrl.dev, storage.ctrl.trail;
      ghost var content := Complete(image, version, n) + before.staging[n..];
      assert content == Complete(image, version, n) + between.staging[n..];
      var stB := ApplyWimToSreStorage(1, image, version, addrB, notify);
      TwoUpdates(storage.ctrl.trail, middle, start, before, between, content);
      InTurn(storage.ctrl.trail, middle, start, before, between, storage.ctrl.dev, content);
      ok := stA == Success && stB == Success;
    }

    /** Reads the descriptor block of partition A; a block without a valid descriptor is version 0. */
    method GetVersion(addr: nat) returns (st: Status, version: u32)
      requires Valid() && Allocated(addr)
      modifies storage, storage.ctrl
      ensures Valid() && storage.ctrl.dev == old(storage.ctrl.dev)
      ensures storage.isWriteOpen == old(storage.isWriteOpen) && storage.blockSize == old(storage.blockSize)
      ensures storage.isSupported == old(storage.isSupported) && storage.blockCount == old(storage.blockCount)
      ensures storage.blockAlignment == old(storage.blockAlignment)
      ensures old(storage.Healthy()) ==> storage.Healthy()
      ensures old(Frozen()) ==> Frozen() && Unchanged(storage.ctrl.trail, old(storage.ctrl.trail), old(storage.ctrl.dev))
      ensures st == Success ==>
                && storage.isSupported && IMAGE_INFO_OFFSET + IMAGE_INFO_BYTES <= |storage.ctrl.dev.bp[0]|
                && version == PartitionVersion(storage.ctrl.dev.bp[0])
      // A partition that does not start a descriptor with "SREI" and structure version 1 is version 0.
      ensures st == Success ==>
                var bp := storage.ctrl.dev.bp[0];
                if bp[0x4400..0x4408] == [0x53, 0x52, 0x45, 0x49, 1, 0, 0, 0] then Le32(version) == bp[0x4408..0x440C]
                else version == 0
      ensures !storage.isSupported ==> st == Unsupported
      ensures storage.isSupported && addr == 0 ==> st == OutOfResources
      ensures storage.isWriteOpen ==> st != Success
      ensures old(storage.Healthy()) && storage.isSupported && !storage.isWriteOpen && addr != 0 ==> st == Success
    {
      version := 0;
      if !storage.isSupported {
        return Unsupported, 0;
      }
      if addr == 0 {
        return OutOfResources, 0;
      }
      var index, at := DescriptorPosition(storage.blockSize, storage.blockCount, |storage.ctrl.dev.staging|);
      st, version := ReadDescriptor(index, at, addr);
      if st == Success {
        VersionOnBytes(storage.ctrl.dev.bp[0]);
        VersionBytesAreLe32(version);
      }
    }

    /** The block that spans the descriptor and where in it the descriptor starts. */
    static method DescriptorPosition(blockSize: nat, ghost blockCount: nat, ghost bpBytes: nat)
      returns (index: nat, at: nat)
      requires GeometryOk(blockSize, blockCount, bpBytes)
      ensures index * blockSize + at == IMAGE_INFO_OFFSET && at + IMAGE_INFO_BYTES <= blockSize && index < blockCount
    {
      DescriptorInOneBlock(blockSize, blockCount, bpBytes);
      index, at := DivRem(IMAGE_INFO_OFFSET, blockSize);
    }

    /** Read block `index` of partition A and decode the descriptor `at` bytes into it. */
    method ReadDescriptor(index: nat, at: nat, addr: nat) returns (st: Status, version: u32)
      requires Valid() && storage.isSupported
      requires index * storage.blockSize + at == IMAGE_INFO_OFFSET && at + IMAGE_INFO_BYTES <= storage.blockSize
      modifies storage, storage.ctrl
      ensures Valid() && storage.ctrl.dev == old(storage.ctrl.dev)
      ensures storage.isWriteOpen == old(storage.isWriteOpen) && storage.blockSize == old(storage.blockSize)
      ensures storage.isSupported == old(storage.isSupported) && storage.blockCount == old(storage.blockCount)
      ensures storage.blockAlignment == old(storage.blockAlignment)
      ensures old(storage.Healthy()) ==> storage.Healthy()
      ensures old(Frozen()) ==> Frozen() && Unchanged(storage.ctrl.trail, old(storage.ctrl.trail), old(storage.ctrl.dev))
      ensures st == Success ==>
                && IMAGE_INFO_OFFSET + IMAGE_INFO_BYTES <= |storage.ctrl.dev.bp[0]|
                && version == PartitionVersion(storage.ctrl.dev.bp[0])
      ensures storage.isWriteOpen ==> st != Success
      ensures old(storage.Healthy()) && !storage.isWriteOpen && index < storage.blockCount && old(Usable(storage.Abs(), addr)) ==>
                st == Success
    {
      hide Step;
      hide VersionOf;
      hide PartitionVersion;
      hide IsBlock;
      hide GeometryOk;
      hide SessionInv;
      ghost var before := storage.Abs();
      ReadFacts(before, 0, index, addr, storage.ctrl.oracle(storage.ctrl.tick));
      var block;
      st, block := storage.ReadBlock(0, index, addr);
      version := 0;
      if st == Success {
        DescriptorRead(before, index, at, block);
        version := VersionOf(block[at..at + IMAGE_INFO_BYTES]);
      }
    }

    /** The lock before OS handoff, on both partitions whatever became of the first. */
    method Lock() returns (st: Status)
      requires Valid()
      modifies storage, storage.ctrl
      ensures Valid() && storage.ctrl.dev.bp == old(storage.ctrl.dev.bp)
      ensures storage.isWriteOpen == old(storage.isWriteOpen)
      ensures storage.blockSize == old(storage.blockSize)
      ensures storage.isSupported == old(storage.isSupported) && storage.blockCount == old(storage.blockCount)
      ensures storage.blockAlignment == old(storage.blockAlignment)
      ensures old(storage.Healthy()) ==> storage.Healthy()
      ensures old(Frozen()) ==> Frozen() && Unchanged(storage.ctrl.trail, old(storage.ctrl.trail), old(storage.ctrl.dev))
      ensures st == Success ==> Frozen()
      // The second partition is locked whatever became of the first.
      ensures old(storage.Healthy()) && storage.isSupported && !storage.isWriteOpen ==>
                forall p | 0 <= p < 2 && Accepts(old(storage.ctrl.dev).wp[p], 3) ::
                  storage.ctrl.dev.wp[p] == LockedUntilPowerCycle
      ensures old(storage.isWriteOpen) ==> st != Success && storage.ctrl.dev == old(storage.ctrl.dev)
      ensures old(storage.Healthy()) && storage.isSupported && !storage.isWriteOpen ==>
                (st == Success <==> forall p | 0 <= p < 2 :: Accepts(old(storage.ctrl.dev).wp[p], 3))
    {
      hide GeometryOk;
      hide SessionInv;
      hide Step;
      hide Accepts;
      LockFacts(storage.Abs(), 0, storage.ctrl.oracle(storage.ctrl.tick));
      var status0 := storage.LockPartition(0);
      LockFacts(storage.Abs(), 1, storage.ctrl.oracle(storage.ctrl.tick));
      var status1 := storage.LockPartition(1);
      st := if status0 != Success then status0 else status1;
    }

    /** What the callers of one API call owe it: a written buffer of one block, buffers as the page
        allocator returns them. */
    ghost predicate Acceptable(c: ApiCall)
      reads storage
    {
      match c
      case StorageCall(Write(_, data)) => |data| == storage.blockSize
      case StorageCall(_) => true
      case Set(_, _, addrA, addrB, _, _) => Allocated(addrA) && Allocated(addrB)
      case Version(addr) => Allocated(addr)
      case Check(_) => true
      case LockAll => true
    }

    method Perform(c: ApiCall)
      requires Valid() && Acceptable(c)
      modifies this, storage, storage.ctrl
      ensures Valid() && storage.isSupported == old(storage.isSupported)
      ensures storage.blockSize == old(storage.blockSize) && storage.blockAlignment == old(storage.blockAlignment)
      ensures old(Frozen()) ==>
                && Frozen() && storage.ctrl.dev.bp == old(storage.ctrl.dev.bp)
                && Unchanged(storage.ctrl.trail, old(storage.ctrl.trail), old(storage.ctrl.dev))
    {
      match c {
        case StorageCall(call) => PerformStorage(call);
        case Set(image, version, addrA, addrB, notify, setVariable) =>
          var st, attempt := SetImage(image, version, addrA, addrB, notify, setVariable);
        case Version(addr) =>
          var st, version := GetVersion(addr);
        case Check(image) =>
          var st, updatable, attempt := CheckImage(image);
        case LockAll =>
          var st := Lock();
      }
    }

    method PerformStorage(c: Call)
      requires Valid() && WellFormed(storage.Abs(), c)
      modifies storage, storage.ctrl
      ensures Valid() && storage.isSupported == old(storage.isSupported)
      ensures storage.blockSize == old(storage.blockSize) && storage.blockAlignment == old(storage.blockAlignment)
      ensures old(Frozen()) ==>
                && Frozen() && storage.ctrl.dev.bp == old(storage.ctrl.dev.bp)
                && Unchanged(storage.ctrl.trail, old(storage.ctrl.trail), old(storage.ctrl.dev))
    {
      ghost var s, o := storage.Abs(), storage.ctrl.oracle(storage.ctrl.tick);
      StepKeepsInv(s, c, o);
      if Frozen() {
        FrozenStep(s, c, o);
      }
      hide Step;
      var st, data;
      match c {
        case Read(p, block, addr) => st, data := storage.ReadBlock(p, block, addr);
        case Open(p) => st := storage.WriteOpen(p);
        case Write(addr, bytes) => st := storage.WriteBlock(addr, bytes);
        case Close => st := storage.WriteClose();
        case Abort => st := storage.WriteAbort();
        case Lock(p) => st := storage.LockPartition(p);
      }
    }

    /** Any sequence of storage and FMP calls: once both partitions are frozen it changes no byte and
        no lock of either, at any point, and opens no session. */
    method RunCalls(calls: seq<ApiCall>)
      requires Valid() && forall i | 0 <= i < |calls| :: Acceptable(calls[i])
      modifies this, storage, storage.ctrl
      ensures Valid()
      ensures old(Frozen()) ==>
                && Frozen() && storage.ctrl.dev.bp == old(storage.ctrl.dev.bp)
                && Unchanged(storage.ctrl.trail, old(storage.ctrl.trail), old(storage.ctrl.dev))
    {
      ghost var start, before := storage.ctrl.trail, storage.ctrl.dev;
      for i := 0 to |calls|
        invariant Valid() && forall j | 0 <= j < |calls| :: Acceptable(calls[j])
        invariant old(Frozen()) ==>
                    Frozen() && storage.ctrl.dev.bp == before.bp && Unchanged(storage.ctrl.trail, start, before)
      {
        ghost var middle, between := storage.ctrl.trail, storage.ctrl.dev;
        Perform(calls[i]);
        if old(Frozen()) {
          UnchangedJoin(storage.ctrl.trail, middle, start, between, before);
        }
      }
    }
  }

  /** `chunk` is block `block` of `complete`. */
  ghost predicate StagedNext(complete: seq<byte>, block: nat, blockSize: nat, chunk: seq<byte>) {
    && block * blockSize + |chunk| == (block + 1) * blockSize <= |complete|
    && complete[..block * blockSize] + chunk == complete[..(block + 1) * blockSize]
  }

  lemma NextBlock(complete: seq<byte>, block: nat, blockSize: nat, chunk: seq<byte>)
    requires block * blockSize + blockSize <= |complete|
    requires chunk == complete[block * blockSize..block * blockSize + blockSize]
    ensures StagedNext(complete, block, blockSize, chunk)
  {
    NextMultiple(block, blockSize);
  }

  // The buffer the loop builds for a block is that block of the complete contents.
  lemma ChunkIsBlock(image: seq<byte>, version: u32, n: nat, block: nat, blockSize: nat, chunk: seq<byte>)
    requires |image| <= n && IMAGE_INFO_OFFSET + IMAGE_INFO_BYTES <= n
    requires 0 < blockSize && block * blockSize + blockSize <= n
    requires IMAGE_INFO_OFFSET % blockSize + IMAGE_INFO_BYTES <= blockSize
    requires var fill := Padded(image, n)[block * blockSize..block * blockSize + blockSize];
             chunk == if block == IMAGE_INFO_OFFSET / blockSize
                      then Splice(fill, IMAGE_INFO_OFFSET % blockSize, Descriptor(version)) else fill
    ensures Complete(image, version, n)[block * blockSize..block * blockSize + blockSize] == chunk
  {
    DescriptorPlace(block, blockSize);
    StampedBlock(Padded(image, n), IMAGE_INFO_OFFSET, Descriptor(version), block * blockSize, blockSize);
  }

  // Where the descriptor lies relative to a block.
  lemma DescriptorPlace(block: nat, blockSize: nat)
    requires 0 < blockSize
    ensures var d, from := IMAGE_INFO_OFFSET / blockSize, block * blockSize;
            && (block == d ==> IMAGE_INFO_OFFSET - from == IMAGE_INFO_OFFSET % blockSize)
            && (block < d ==> from + blockSize <= IMAGE_INFO_OFFSET)
            && (block > d ==> IMAGE_INFO_OFFSET - IMAGE_INFO_OFFSET % blockSize + blockSize <= from)
  {
    var d := IMAGE_INFO_OFFSET / blockSize;
    assert IMAGE_INFO_OFFSET == d * blockSize + IMAGE_INFO_OFFSET % blockSize;
    if block < d {
      MulMonotone(block + 1, d, blockSize);
    } else if block > d {
      MulMonotone(d + 1, block, blockSize);
    }
  }

  /** Every device the trail gained since `start` has the partitions and locks of `before`. */
  ghost predicate Unchanged(trail: seq<Device>, start: seq<Device>, before: Device) {
    && start <= trail
    && forall k | |start| <= k < |trail| :: trail[k].bp == before.bp && trail[k].wp == before.wp
  }

  lemma UnchangedJoin(trail: seq<Device>, middle: seq<Device>, start: seq<Device>, between: Device, before: Device)
    requires Unchanged(middle, start, before) && Unchanged(trail, middle, between)
    requires between.bp == before.bp && between.wp == before.wp
    ensures Unchanged(trail, start, before)
  {
  }

  ghost predicate NoMixture(trail: seq<Device>, start: seq<Device>, before: Device, content: seq<byte>)
    requires before.Valid()
  {
    && start <= trail
    && forall k | |start| <= k < |trail| :: trail[k].Valid() && AllOrNothing(trail[k], before, content)
  }

  // Two updates in a row, each all-or-nothing on its own partition, are all-or-nothing together.
  lemma TwoUpdates(trail: seq<Device>, middle: seq<Device>, start: seq<Device>,
                   before: Device, between: Device, content: seq<byte>)
    requires before.Valid() && between.Valid()
    requires Track(middle, start, before, 0, content) && OneUpdated(between, before, 0, content)
    requires Track(trail, middle, between, 1, content)
    ensures NoMixture(trail, start, before, content)
  {
    forall k | |start| <= k < |trail|
      ensures trail[k].Valid() && AllOrNothing(trail[k], before, content)
    {
      if k < |middle| {
        assert trail[k] == middle[k];
        assert OneUpdated(middle[k], before, 0, content);
      } else {
        assert OneUpdated(trail[k], between, 1, content);
      }
    }
  }

  /** The second partition is not touched before the first has its final bytes. */
  ghost predicate FirstThenSecond(trail: seq<Device>, start: seq<Device>, before: Device, after: Device) {
    && start <= trail
    && forall k | |start| <= k < |trail| ::
         |trail[k].bp| == 2 == |before.bp| == |after.bp|
         && (trail[k].bp[1] == before.bp[1] || trail[k].bp[0] == after.bp[0])
  }

  lemma InTurn(trail: seq<Device>, middle: seq<Device>, start: seq<Device>,
               before: Device, between: Device, after: Device, content: seq<byte>)
    requires before.Valid() && between.Valid()
    requires Track(middle, start, before, 0, content) && OneUpdated(between, before, 0, content)
    requires Track(trail, middle, between, 1, content) && OneUpdated(after, between, 1, content)
    ensures FirstThenSecond(trail, start, before, after)
  {
    forall k | |start| <= k < |trail|
      ensures |trail[k].bp| == 2 && (trail[k].bp[1] == before.bp[1] || trail[k].bp[0] == after.bp[0])
    {
      if k < |middle| {
        assert trail[k] == middle[k];
        assert OneUpdated(middle[k], before, 0, content);
      } else {
        assert OneUpdated(trail[k], between, 1, content);
      }
    }
  }

  // Opening changes only the target's lock, so what holds since the opening holds since before it.
  lemma TrackJoin(trail: seq<Device>, start: seq<Device>, before: Device, unlocked: Device, p: nat, content: seq<byte>)
    requires before.Valid() && unlocked.Valid() && p < 2
    requires unlocked.bp == before.bp && unlocked.wp[1 - p] == before.wp[1 - p]
    requires OneUpdated(unlocked, before, p, content)
    requires Track(trail, start + [unlocked], unlocked, p, content)
    ensures Track(trail, start, before, p, content)
  {
    forall k | |start| <= k < |trail|
      ensures OneUpdated(trail[k], before, p, content)
    {
      if k == |start| {
        assert trail[k] == (start + [unlocked])[k];
      } else {
        assert OneUpdated(trail[k], unlocked, p, content);
      }
    }
  }

  lemma OpenFacts(s: Storage, p: nat, o: Outcome)
    requires Inv(s) && p < 2
    ensures var r := Step(s, Open(p), o);
            && Inv(r.storage) && r.storage.dev.bp == s.dev.bp && r.storage.dev.staging == s.dev.staging
            && r.storage.dev.wp[1 - p] == s.dev.wp[1 - p]
            && (r.status != Success ==> r.storage == s.(dev := r.storage.dev))
            && (s.open || !s.supported ==> r.status != Success && r.storage == s)
            && (s.open ==> r.status == Aborted)
            && (s.dev.wp == [LockedUntilPowerCycle, LockedUntilPowerCycle] ==>
                  r.status != Success && r.storage.dev.wp == s.dev.wp)
            && (o == Executed && s.supported && !s.open && Accepts(s.dev.wp[p], 1) ==> r.status == Success)
  {
    hide Execute;
    StepKeepsInv(s, Open(p), o);
    LockEffect(s.dev, p, 1, o);
  }

  /** The state an unlocked partition is in after a relock request that ends as `o`. */
  function Relocked(o: Outcome): WriteProtection {
    if TookEffect(o) then WriteLocked else WriteUnlocked
  }

  lemma AbortFacts(s: Storage, o: Outcome)
    requires Inv(s) && s.open
    ensures var r := Step(s, Abort, o);
            && Inv(r.storage) && !r.storage.open
            && r.storage.dev.bp == s.dev.bp && r.storage.dev.staging == s.dev.staging
            && r.storage.dev.wp[1 - s.part] == s.dev.wp[1 - s.part]
            && r.storage.dev.wp[s.part] == Relocked(o)
  {
    hide Execute;
    StepKeepsInv(s, Abort, o);
    LockEffect(s.dev, s.part, 2, o);
  }

  lemma LockFacts(s: Storage, p: nat, o: Outcome)
    requires Inv(s) && p < 2
    ensures var r := Step(s, Lock(p), o);
            && r.storage == s.(dev := r.storage.dev) && r.storage.dev.bp == s.dev.bp
            && r.storage.dev.wp[1 - p] == s.dev.wp[1 - p]
            && (r.status == Success ==> !s.open && r.storage.dev.wp[p] == LockedUntilPowerCycle)
            && (s.open ==> r.storage == s && r.status != Success)
            && (s.dev.wp[p] == LockedUntilPowerCycle ==> r.storage.dev.wp[p] == LockedUntilPowerCycle)
            && (o == Executed && s.supported && !s.open ==> (r.status == Success <==> Accepts(s.dev.wp[p], 3)))
  {
    hide Execute;
    StepKeepsInv(s, Lock(p), o);
    LockEffect(s.dev, p, 3, o);
  }

  /** A buffer the storage library accepts. */
  predicate Usable(s: Storage, addr: nat) {
    addr != 0 && s.alignment > 0 && addr % s.alignment == 0
  }

  predicate IsBlock(s: Storage, p: nat, block: nat, data: seq<byte>)
    requires s.dev.Valid() && p < 2
  {
    block < s.blockCount && IsSlice(s.dev.bp[p], block * s.blockSize, s.blockSize, data)
  }

  lemma DescriptorRead(s: Storage, index: nat, at: nat, block: seq<byte>)
    requires s.dev.Valid() && IsBlock(s, 0, index, block)
    requires index * s.blockSize + at == IMAGE_INFO_OFFSET && at + IMAGE_INFO_BYTES <= s.blockSize
    ensures |block| == s.blockSize && IMAGE_INFO_OFFSET + IMAGE_INFO_BYTES <= |s.dev.bp[0]|
    ensures VersionOf(block[at..at + IMAGE_INFO_BYTES]) == PartitionVersion(s.dev.bp[0])
  {
    DescriptorInBlock(s.dev.bp[0], index * s.blockSize, s.blockSize, at);
  }

  lemma BlockIsReadable(blockSize: nat, blockCount: nat, bpBytes: nat, block: nat)
    requires GeometryOk(blockSize, blockCount, bpBytes) && block < blockCount
    ensures 4 <= blockSize < 0x1_0000_0000 && blockSize % 4 == 0
    ensures block * blockSize + blockSize <= bpBytes < 0x1_0000_0000
  {
    BlockFits(blockSize, blockCount, bpBytes, block);
    BlockAligned(blockSize, block);
  }

  // A successful read returns exactly the partition's block.
  lemma ReadFacts(s: Storage, p: nat, block: nat, addr: nat, o: Outcome)
    requires Inv(s) && p < 2
    ensures var r := Step(s, Read(p, block, addr), o);
            && r.storage == s && (r.status == Success ==> !s.open && IsBlock(s, p, block, r.data))
            && (o == Executed && s.supported && !s.open && block < s.blockCount && Usable(s, addr) ==> r.status == Success)
  {
    hide Execute;
    hide LogPageCommand;
    hide IsSlice;
    if Issue(s, Read(p, block, addr)).Send? {
      BlockIsReadable(s.blockSize, s.blockCount, |s.dev.staging|, block);
      hide GeometryOk;
      ChunkArrives(s.dev, p, block * s.blockSize, s.blockSize, o);
    }
  }

  lemma WriteFacts(s: Storage, addr: nat, data: seq<byte>, o: Outcome)
    requires Inv(s) && WellFormed(s, Write(addr, data)) && s.open
    ensures s.blockCount * s.blockSize <= |s.dev.staging|
    ensures var r := Step(s, Write(addr, data), o);
            && r.storage.open && r.storage.part == s.part
            && r.storage.dev.Valid() && |r.storage.dev.staging| == |s.dev.staging|
            && r.storage.dev.bp == s.dev.bp && r.storage.dev.wp == s.dev.wp
            && r.storage.dev.staging[s.blockCount * s.blockSize..] == s.dev.staging[s.blockCount * s.blockSize..]
            && (r.status == Success ==> r.storage.index == s.index + 1 && r.storage.accepted == s.accepted + data)
            && (o == Executed && s.index < s.blockCount && Usable(s, addr) ==> r.status == Success)
  {
    BlockFits(s.blockSize, s.blockCount, |s.dev.staging|, 0);
    if Issue(s, Write(addr, data)).Send? {
      WriteStep(s, addr, data, o);
    }
  }

  lemma CloseFacts(s: Storage, o: Outcome)
    requires Inv(s) && s.open && s.index == s.blockCount
    ensures var r := Step(s, Close, o);
            && r.storage.dev.Valid() && r.storage.dev.staging == s.dev.staging && r.storage.dev.wp == s.dev.wp
            && r.storage.dev.bp[1 - s.part] == s.dev.bp[1 - s.part]
            && (r.storage.dev.bp[s.part] == s.dev.bp[s.part] || r.storage.dev.bp[s.part] == s.dev.staging)
            && (r.status == Success ==> !r.storage.open && r.storage.dev.bp[s.part] == s.dev.staging)
            && (r.status != Success ==> r.storage.open && r.storage.part == s.part)
            && (o == Executed ==> r.status == Success)
  {
    CommitIsAllOrNothing(s.dev, CommitCommand(s.part), o);
    CommitCommandDecodes(s.part);
  }

  // ---- The bytes past the last whole block ------------------------------------------------

  /** A device whose staging area holds `staging`. */
  function Staged(staging: seq<byte>): (d: Device)
    ensures d.Valid() && d.staging == staging
  {
    Device(Zeros(LOG_HEADER_BYTES), [staging, staging], staging, [WriteLocked, WriteLocked])
  }

  // What a complete update leaves on a partition depends on the image alone exactly when the block
  // size divides the partition size; otherwise the rest is whatever was staged there before.
  lemma ContentsAreTheImage(blockSize: nat, blockCount: nat, bpBytes: nat, image: seq<byte>, version: u32)
    requires GeometryOk(blockSize, blockCount, bpBytes) && |image| <= blockCount * blockSize
    ensures IMAGE_INFO_OFFSET + IMAGE_INFO_BYTES <= blockCount * blockSize <= bpBytes
    ensures bpBytes % blockSize == 0 <==>
            forall d: Device, e: Device | d.Valid() && e.Valid() && |d.staging| == bpBytes && |e.staging| == bpBytes ::
              Installed(d, image, version, blockCount * blockSize) == Installed(e, image, version, blockCount * blockSize)
  {
    DescriptorInOneBlock(blockSize, blockCount, bpBytes);
    BlockFits(blockSize, blockCount, bpBytes, 0);
    TailIsEmptyWhenBlocksDivide(blockSize, blockCount, bpBytes);
    var n := blockCount * blockSize;
    if n < bpBytes {
      var ones: seq<byte> := seq(bpBytes, i => 1);
      var d, e := Staged(Zeros(bpBytes)), Staged(ones);
      assert Installed(d, image, version, n)[n] == 0 && Installed(e, image, version, n)[n] == 1;
    } else {
      forall d: Device, e: Device | d.Valid() && e.Valid() && |d.staging| == bpBytes && |e.staging| == bpBytes
        ensures Installed(d, image, version, n) == Installed(e, image, version, n)
      {
        assert d.staging[n..] == [] && e.staging[n..] == [];
      }
    }
  }

  // The constructor does accept a geometry with a tail: granularity 3 on a 128 KiB partition makes
  // ten 12 KiB blocks and leaves the last 8 KiB.
  lemma GranularityThreeLeavesATail(bpinfo: u32)
    requires bpinfo % 0x8000 == 1
    ensures GeometryOk(BlockSizeFor(3), 10, PartitionBytes(bpinfo))
    ensures PartitionBytes(bpinfo) % BlockSizeFor(3) == 0x2000
  {
  }
}
