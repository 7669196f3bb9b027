/** The recovery boot path's view of a boot partition: chunked Get Log Page reads into memory and a
    read-only RAM disk over the result. */
module BpRecovery {
  import opened Arithmetic
  import opened Bytes
  import opened Efi
  import opened Nvme
  import opened SreStorage
  import opened SreImage
  import opened SreFmp

  const READ_CHUNK_MIN := 64 * 1024
  const READ_CHUNK_MAX := 512 * 1024
  const READ_CHUNK_DEFAULT := 64 * 1024
  const RAM_DISK_BLOCK_SIZE := 512
  const USIZE_LIMIT := 0x1_0000_0000_0000_0000

  // ---- Chunk size -------------------------------------------------------------------------

  function Clamp(x: nat, lo: nat, hi: nat): nat {
    if x < lo then lo else if x > hi then hi else x
  }

  /** `1usize.checked_shl(mdts)` then `checked_mul(4096)`: absent when either overflows. */
  function CheckedTransfer(mdts: byte): Option<nat> {
    if mdts >= 64 then None
    else if Pow2(mdts) * 4096 >= USIZE_LIMIT then None
    else Some(Pow2(mdts) * 4096)
  }

  /** The chunk size from an Identify reply: `None` when the command failed, else MDTS. */
  function ProbeMaxTransfer(identify: Option<byte>): nat {
    match identify
    case None => READ_CHUNK_DEFAULT
    case Some(mdts) =>
      if mdts == 0 then READ_CHUNK_MAX
      else match CheckedTransfer(mdts)
        case None => READ_CHUNK_MAX
        case Some(bytes) => Clamp(bytes, READ_CHUNK_MIN, READ_CHUNK_MAX)
  }

  lemma FirstPowers()
    ensures Pow2(1) == 2 && Pow2(2) == 4 && Pow2(3) == 8 && Pow2(4) == 16 && Pow2(5) == 32 && Pow2(6) == 64
    ensures Pow2(7) == 128
  {
    assert Pow2(4) == 16;
  }

  // The overflow guards change nothing: the chunk is the unbounded 4096 * 2^MDTS clamped, and it
  // always meets the reader's alignment check.
  lemma ProbeIsClampedPower(identify: Option<byte>)
    ensures READ_CHUNK_MIN <= ProbeMaxTransfer(identify) <= READ_CHUNK_MAX
    ensures ProbeMaxTransfer(identify) % 4 == 0
    ensures identify.Some? && identify.value > 0 ==>
              ProbeMaxTransfer(identify) == Clamp(Pow2(identify.value) * 4096, READ_CHUNK_MIN, READ_CHUNK_MAX)
    // So there are four chunk sizes: no reply counts as the least, no limit as the greatest.
    ensures ProbeMaxTransfer(identify) ==
              match identify
              case None => 65536
              case Some(mdts) => if mdts == 0 || mdts >= 7 then 524288 else if mdts == 6 then 262144 else if mdts == 5 then 131072 else 65536
  {
    hide Pow2;
    FirstPowers();
    if identify.Some? && identify.value > 0 {
      var mdts := identify.value;
      if mdts >= 7 {
        Pow2Monotone(7, mdts);
      }
    }
  }

  // ---- Chunked read -----------------------------------------------------------------------

  datatype ReadResult = ReadResult(ok: bool, data: seq<byte>)

  /** The destination after one chunk, which a failed or rejected command leaves as it was. */
  function AfterChunk(d: Device, p: nat, off: nat, bytes: nat, data: seq<byte>, o: Outcome): (r: ReadResult)
    requires d.Valid() && p < 2 && 4 <= bytes < 0x1_0000_0000 && bytes % 4 == 0 && off + bytes <= |data|
    requires |data| + LOG_HEADER_BYTES < USIZE_LIMIT
    ensures |r.data| == |data|
  {
    match Execute(d, LogPageCommand(p, off, bytes), o).1
    case NoTransport => ReadResult(false, data)
    case StatusError => ReadResult(true, data)
    case Completed(got) =>
      ChunkArrives(d, p, off, bytes, o);
      ReadResult(true, Splice(data, off, got))
  }

  /** The loop of the reader on values: `data` is the destination with everything below `off`
      handled. Only a failed pass-thru call ends it; the completion's status code is not looked at,
      so a rejected chunk keeps what the destination held. */
  function ReadFrom(d: Device, p: nat, chunk: nat, data: seq<byte>, off: nat, oracle: nat -> Outcome, tick: nat): (r: ReadResult)
    requires d.Valid() && p < 2 && ReadSizesOk(chunk, |data|)
    requires off <= |data| && off % 4 == 0
    ensures |r.data| == |data|
    decreases |data| - off
  {
    if off == |data| then ReadResult(true, data)
    else
      var bytes := ChunkBytes(chunk, |data|, off);
      var next := AfterChunk(d, p, off, bytes, data, oracle(tick));
      if next.ok then ReadFrom(d, p, chunk, next.data, off + bytes, oracle, tick + 1) else next
  }

  /** Whole dwords and a chunk a UINT32 transfer length can hold. */
  predicate ReadSizesOk(chunk: nat, length: nat) {
    4 <= chunk < 0x1_0000_0000 && chunk % 4 == 0 && length % 4 == 0 && length + LOG_HEADER_BYTES < USIZE_LIMIT
  }

  function ChunkBytes(chunk: nat, length: nat, off: nat): (b: nat)
    requires ReadSizesOk(chunk, length) && off < length && off % 4 == 0
    ensures 4 <= b <= chunk && b % 4 == 0 && off + b <= length && (off + b) % 4 == 0
  {
    if length - off < chunk then length - off else chunk
  }

  /** `read_bp_via_log_page`: fills `dest` from partition `p` in chunks. */
  method ReadBpViaLogPage(ctrl: Controller, p: nat, chunk: nat, dest: array<byte>) returns (st: Status)
    requires ctrl.Valid() && p < 2
    requires chunk < 0x1_0000_0000 && dest.Length + LOG_HEADER_BYTES < USIZE_LIMIT
    modifies ctrl, dest
    ensures ctrl.Valid() && ctrl.dev == old(ctrl.dev)
    ensures st == InvalidParameter <==> chunk < 4 || chunk % 4 != 0 || dest.Length % 4 != 0
    ensures st == InvalidParameter ==> dest[..] == old(dest[..]) && ctrl.tick == old(ctrl.tick)
    ensures st != InvalidParameter ==>
              var r := ReadFrom(old(ctrl.dev), p, chunk, old(dest[..]), 0, ctrl.oracle, old(ctrl.tick));
              (st == Success <==> r.ok) && dest[..] == r.data
  {
    if chunk < 4 || chunk % 4 != 0 || dest.Length % 4 != 0 {
      return InvalidParameter;
    }
    st := ReadChunks(ctrl, p, chunk, dest);
  }

  /** The chunk loop. */
  method ReadChunks(ctrl: Controller, p: nat, chunk: nat, dest: array<byte>) returns (st: Status)
    requires ctrl.Valid() && ctrl.dev.Valid() && p < 2 && ReadSizesOk(chunk, dest.Length)
    requires dest.Length + LOG_HEADER_BYTES < USIZE_LIMIT
    modifies ctrl, dest
    ensures ctrl.Valid() && ctrl.dev == old(ctrl.dev)
    ensures st == Success || st == DeviceError
    ensures var r := ReadFrom(old(ctrl.dev), p, chunk, old(dest[..]), 0, ctrl.oracle, old(ctrl.tick));
            (st == Success <==> r.ok) && dest[..] == r.data
  {
    ghost var d, oracle := ctrl.dev, ctrl.oracle;
    ghost var result := ReadFrom(d, p, chunk, dest[..], 0, oracle, ctrl.tick);
    var off := 0;
    assert Reading(d, p, chunk, dest[..], off, oracle, ctrl.tick, result);
    hide *;
    while off < dest.Length
      invariant off <= dest.Length && off % 4 == 0
      invariant ctrl.Valid() && ctrl.dev == d
      invariant Reading(d, p, chunk, dest[..], off, oracle, ctrl.tick, result)
    {
      var bytes := ChunkBytes(chunk, dest.Length, off);
      ReadingStep(d, p, chunk, dest[..], off, oracle, ctrl.tick, result);
      var ok := ReadChunk(ctrl, p, off, bytes, dest);
      if !ok {
        return DeviceError;
      }
      off := off + bytes;
    }
    ReadingEnds(d, p, chunk, dest[..], off, oracle, ctrl.tick, result);
    st := Success;
  }

  /** Part-way through the loop: reading on from `off` ends in `result`. */
  ghost predicate Reading(d: Device, p: nat, chunk: nat, data: seq<byte>, off: nat, oracle: nat -> Outcome, tick: nat, result: ReadResult) {
    && d.Valid() && p < 2 && ReadSizesOk(chunk, |data|) && off <= |data| && off % 4 == 0
    && ReadFrom(d, p, chunk, data, off, oracle, tick) == result
  }

  lemma ReadingEnds(d: Device, p: nat, chunk: nat, data: seq<byte>, off: nat, oracle: nat -> Outcome, tick: nat, result: ReadResult)
    requires Reading(d, p, chunk, data, off, oracle, tick, result) && off == |data|
    ensures result == ReadResult(true, data)
  {
  }

  lemma ReadingStep(d: Device, p: nat, chunk: nat, data: seq<byte>, off: nat, oracle: nat -> Outcome, tick: nat, result: ReadResult)
    requires Reading(d, p, chunk, data, off, oracle, tick, result) && off < |data|
    ensures d.Valid() && p < 2 && ReadSizesOk(chunk, |data|) && off % 4 == 0
    ensures var bytes := ChunkBytes(chunk, |data|, off);
            var next := AfterChunk(d, p, off, bytes, data, oracle(tick));
            if next.ok then Reading(d, p, chunk, next.data, off + bytes, oracle, tick + 1, result) else result == next
  {
  }

  /** One command of the read. */
  method ReadChunk(ctrl: Controller, p: nat, off: nat, bytes: nat, dest: array<byte>) returns (ok: bool)
    requires ctrl.Valid() && p < 2 && 4 <= bytes < 0x1_0000_0000 && bytes % 4 == 0 && off + bytes <= dest.Length
    requires dest.Length + LOG_HEADER_BYTES < USIZE_LIMIT
    modifies ctrl, dest
    ensures ctrl.Valid() && ctrl.dev == old(ctrl.dev) && ctrl.tick == old(ctrl.tick) + 1
    ensures var r := AfterChunk(old(ctrl.dev), p, off, bytes, old(dest[..]), ctrl.oracle(old(ctrl.tick)));
            ok == r.ok && dest[..] == r.data
  {
    hide Execute;
    hide LogPageCommand;
    ChunkArrives(ctrl.dev, p, off, bytes, ctrl.oracle(ctrl.tick));
    var reply := ctrl.Submit(LogPageCommand(p, off, bytes));
    match reply {
      case NoTransport => return false;
      case StatusError => return true;
      case Completed(got) =>
        StoreChunk(dest, off, got);
        return true;
    }
  }

  /** Copy the bytes of one chunk to their place. */
  method StoreChunk(dest: array<byte>, off: nat, got: seq<byte>)
    requires off + |got| <= dest.Length
    modifies dest
    ensures dest[..] == Splice(old(dest[..]), off, got)
  {
    forall i | 0 <= i < |got| { dest[off + i] := got[i]; }
  }

  /** The chunk at `off`, issued as command number `tick`, ends with a status code. */
  ghost predicate RejectedAt(d: Device, p: nat, chunk: nat, length: nat, off: nat, oracle: nat -> Outcome, tick: nat)
    requires d.Valid() && p < 2 && ReadSizesOk(chunk, length) && off < length && off % 4 == 0
  {
    Execute(d, LogPageCommand(p, off, ChunkBytes(chunk, length, off)), oracle(tick)).1.StatusError?
  }

  /** No chunk from `off` on ends with a status code. */
  ghost predicate NoneRejected(d: Device, p: nat, chunk: nat, length: nat, off: nat, oracle: nat -> Outcome, tick: nat)
    requires d.Valid() && p < 2 && ReadSizesOk(chunk, length) && off <= length && off % 4 == 0
    decreases length - off
  {
    off < length ==>
      && !RejectedAt(d, p, chunk, length, off, oracle, tick)
      && NoneRejected(d, p, chunk, length, off + ChunkBytes(chunk, length, off), oracle, tick + 1)
  }

  // Success with clean completions delivers the partition.
  lemma {:induction false} CleanReadIsExact(d: Device, p: nat, chunk: nat, data: seq<byte>, off: nat, oracle: nat -> Outcome, tick: nat)
    requires d.Valid() && p < 2 && ReadSizesOk(chunk, |data|) && off <= |data| && off % 4 == 0
    requires off <= |d.bp[p]| && data[..off] == d.bp[p][..off]
    requires NoneRejected(d, p, chunk, |data|, off, oracle, tick)
    requires ReadFrom(d, p, chunk, data, off, oracle, tick).ok
    ensures |data| <= |d.bp[p]|
    ensures ReadFrom(d, p, chunk, data, off, oracle, tick).data == d.bp[p][..|data|]
    decreases |data| - off
  {
    if off < |data| {
      var bytes := ChunkBytes(chunk, |data|, off);
      ChunkArrives(d, p, off, bytes, oracle(tick));
      var got := d.bp[p][off..off + bytes];
      var next := Splice(data, off, got);
      assert next[..off + bytes] == d.bp[p][..off + bytes] by {
        assert next[..off + bytes] == next[..off] + next[off..off + bytes];
      }
      CleanReadIsExact(d, p, chunk, next, off + bytes, oracle, tick + 1);
    }
  }

  // The reader never goes back: what lies below its offset stays as it is.
  lemma {:induction false} BelowIsKept(d: Device, p: nat, chunk: nat, data: seq<byte>, off: nat, oracle: nat -> Outcome, tick: nat)
    requires d.Valid() && p < 2 && ReadSizesOk(chunk, |data|) && off <= |data| && off % 4 == 0
    ensures ReadFrom(d, p, chunk, data, off, oracle, tick).data[..off] == data[..off]
    decreases |data| - off
  {
    hide Execute;
    hide LogPageCommand;
    hide AfterChunk;
    if off < |data| {
      var bytes := ChunkBytes(chunk, |data|, off);
      var next := AfterChunk(d, p, off, bytes, data, oracle(tick));
      ChunkFacts(d, p, off, bytes, data, oracle(tick));
      if next.ok {
        BelowIsKept(d, p, chunk, next.data, off + bytes, oracle, tick + 1);
        PrefixOfPrefix(ReadFrom(d, p, chunk, data, off, oracle, tick).data, next.data, off, off + bytes);
      }
    }
  }

  /** The chunk at `off` as command `o` delivers it: what arrives is the partition's, everything
      before it stays, and whether the command went through does not depend on the destination. */
  lemma ChunkFacts(d: Device, p: nat, off: nat, bytes: nat, data: seq<byte>, o: Outcome)
    requires d.Valid() && p < 2 && 4 <= bytes < 0x1_0000_0000 && bytes % 4 == 0 && off + bytes <= |data|
    requires |data| + LOG_HEADER_BYTES < USIZE_LIMIT
    ensures var next, reply := AfterChunk(d, p, off, bytes, data, o), Execute(d, LogPageCommand(p, off, bytes), o).1;
            && next.data[..off] == data[..off] && next.data[off + bytes..] == data[off + bytes..]
            && (next.ok <==> !reply.NoTransport?)
            && (reply.StatusError? ==> next.data == data)
            && (reply.Completed? ==> IsSlice(d.bp[p], off, bytes, next.data[off..off + bytes]))
            && (o == Executed && off + bytes <= |d.bp[p]| ==> reply.Completed?)
  {
    ChunkArrives(d, p, off, bytes, o);
  }

  lemma PrefixOfPrefix(a: seq<byte>, b: seq<byte>, m: nat, n: nat)
    requires m <= n <= |a| && n <= |b| && a[..n] == b[..n]
    ensures a[..m] == b[..m]
  {
    assert a[..m] == a[..n][..m];
  }

  // Whether the loop reaches the end depends on the replies alone.
  lemma {:induction false} OkIgnoresData(d: Device, p: nat, chunk: nat, data: seq<byte>, other: seq<byte>, off: nat, oracle: nat -> Outcome, tick: nat)
    requires d.Valid() && p < 2 && ReadSizesOk(chunk, |data|) && off <= |data| == |other| && off % 4 == 0
    ensures ReadFrom(d, p, chunk, data, off, oracle, tick).ok == ReadFrom(d, p, chunk, other, off, oracle, tick).ok
    decreases |data| - off
  {
    hide Execute;
    hide LogPageCommand;
    hide AfterChunk;
    if off < |data| {
      var bytes := ChunkBytes(chunk, |data|, off);
      var a, b := AfterChunk(d, p, off, bytes, data, oracle(tick)), AfterChunk(d, p, off, bytes, other, oracle(tick));
      ChunkFacts(d, p, off, bytes, data, oracle(tick));
      ChunkFacts(d, p, off, bytes, other, oracle(tick));
      if a.ok {
        OkIgnoresData(d, p, chunk, a.data, b.data, off + bytes, oracle, tick + 1);
      }
    }
  }

  // A rejected chunk silently keeps the destination's own bytes: if they differ from the partition
  // everywhere, a read reported as successful still returns something else than the partition.
  lemma {:induction false} RejectionShows(d: Device, p: nat, chunk: nat, data: seq<byte>, off: nat, oracle: nat -> Outcome, tick: nat)
    requires d.Valid() && p < 2 && ReadSizesOk(chunk, |data|) && off <= |data| <= |d.bp[p]| && off % 4 == 0
    requires forall i | off <= i < |data| :: data[i] != d.bp[p][i]
    requires !NoneRejected(d, p, chunk, |data|, off, oracle, tick)
    requires ReadFrom(d, p, chunk, data, off, oracle, tick).ok
    ensures ReadFrom(d, p, chunk, data, off, oracle, tick).data != d.bp[p][..|data|]
    decreases |data| - off
  {
    hide Execute;
    hide LogPageCommand;
    hide AfterChunk;
    var bytes := ChunkBytes(chunk, |data|, off);
    var next := AfterChunk(d, p, off, bytes, data, oracle(tick)).data;
    ChunkFacts(d, p, off, bytes, data, oracle(tick));
    if RejectedAt(d, p, chunk, |data|, off, oracle, tick) {
      BelowIsKept(d, p, chunk, data, off + bytes, oracle, tick + 1);
      var r := ReadFrom(d, p, chunk, data, off, oracle, tick).data;
      assert r[..off + bytes][off] == data[..off + bytes][off];
    } else {
      forall i | off + bytes <= i < |next|
        ensures next[i] != d.bp[p][i]
      {
        assert next[off + bytes..][i - off - bytes] == data[off + bytes..][i - off - bytes];
      }
      RejectionShows(d, p, chunk, next, off + bytes, oracle, tick + 1);
    }
  }

  // A read reported as successful returns the partition whatever the buffer held before, exactly
  // when no completion carried a status code, which the reader does not check.
  lemma ExactIffNoneRejected(d: Device, p: nat, chunk: nat, length: nat, oracle: nat -> Outcome, tick: nat)
    requires d.Valid() && p < 2 && ReadSizesOk(chunk, length) && length <= |d.bp[p]|
    requires ReadFrom(d, p, chunk, d.bp[p][..length], 0, oracle, tick).ok
    ensures NoneRejected(d, p, chunk, length, 0, oracle, tick) <==>
            forall data: seq<byte> | |data| == length ::
              ReadFrom(d, p, chunk, data, 0, oracle, tick).data == d.bp[p][..length]
  {
    var bp := d.bp[p][..length];
    if NoneRejected(d, p, chunk, length, 0, oracle, tick) {
      forall data: seq<byte> | |data| == length
        ensures ReadFrom(d, p, chunk, data, 0, oracle, tick).data == bp
      {
        OkIgnoresData(d, p, chunk, data, bp, 0, oracle, tick);
        CleanReadIsExact(d, p, chunk, data, 0, oracle, tick);
      }
    } else {
      var wrong: seq<byte> := seq(length, i requires 0 <= i < length => (bp[i] as int + 1) % 0x100);
      OkIgnoresData(d, p, chunk, wrong, bp, 0, oracle, tick);
      RejectionShows(d, p, chunk, wrong, 0, oracle, tick);
    }
  }

  // A controller that rejects every command: the read is reported as successful and the buffer is
  // returned as it was.
  lemma {:induction false} RejectedReadIsSuccess(d: Device, p: nat, chunk: nat, data: seq<byte>, off: nat, oracle: nat -> Outcome, tick: nat)
    requires d.Valid() && p < 2 && ReadSizesOk(chunk, |data|) && off <= |data| && off % 4 == 0
    requires forall n: nat :: oracle(n) == Rejected
    ensures ReadFrom(d, p, chunk, data, off, oracle, tick) == ReadResult(true, data)
    decreases |data| - off
  {
    if off < |data| {
      RejectedReadIsSuccess(d, p, chunk, data, off + ChunkBytes(chunk, |data|, off), oracle, tick + 1);
    }
  }

  // ---- RAM disk ---------------------------------------------------------------------------

  function SaturatingU64(x: nat): u64 {
    if x >= USIZE_LIMIT then USIZE_LIMIT - 1 else x
  }

  /** `ram_disk_read_blocks` on a media with the given identifier and backing buffer. */
  function RamDiskReadBlocks(media: u32, buffer: seq<byte>, mediaId: u32, lba: u64, size: u64): Result<seq<byte>, Status>
    requires |buffer| < USIZE_LIMIT - 1
  {
    if mediaId != media then Err(MediaChanged)
    else
      var offset: nat := SaturatingU64(lba * RAM_DISK_BLOCK_SIZE);
      var end: nat := SaturatingU64(offset + size);
      if end > |buffer| then Err(InvalidParameter)
      else if size % RAM_DISK_BLOCK_SIZE != 0 then Err(BadBufferSize)
      else Ok(buffer[offset..offset + size])
  }

  // Saturation never lets a run outside the buffer through, and a run of whole blocks inside it
  // always reads exactly its bytes.
  lemma RamDiskReadsTheBuffer(media: u32, buffer: seq<byte>, mediaId: u32, lba: u64, size: u64)
    requires |buffer| < USIZE_LIMIT - 1
    ensures var r := RamDiskReadBlocks(media, buffer, mediaId, lba, size);
            var inRange := lba as int * 512 + size as int <= |buffer|;
            && (r.Ok? <==> mediaId == media && inRange && size % 512 == 0)
            && (r.Ok? ==> r.value == buffer[lba as int * 512..lba as int * 512 + size as int])
            && (mediaId != media ==> r == Err(MediaChanged))
            && (mediaId == media && !inRange ==> r == Err(InvalidParameter))
            && (mediaId == media && inRange && size % 512 != 0 ==> r == Err(BadBufferSize))
  {
  }

  // ---- Update, then recover ---------------------------------------------------------------

  lemma RunOfBytes(whole: seq<byte>, tail: seq<byte>, prefix: seq<byte>, from: nat, size: nat)
    requires prefix <= whole + tail && from + size <= |prefix| && from + size <= |whole|
    ensures prefix[from..from + size] == whole[from..from + size]
  {
  }

  // The whole path: a device whose second partition holds an installed image, read back cleanly
  // and exposed as a RAM disk, serves exactly the image, its padding and its descriptor at every
  // in-range run of blocks; and the descriptor is the capsule's.
  lemma UpdateThenRecover(before: Device, d: Device, image: seq<byte>, version: u32, n: nat,
                          chunk: nat, data: seq<byte>, oracle: nat -> Outcome, tick: nat,
                          media: u32, lba: u64, size: u64)
    requires before.Valid() && d.Valid()
    requires |image| <= n && IMAGE_INFO_OFFSET + IMAGE_INFO_BYTES <= n <= |before.staging|
    requires d.bp == [Installed(before, image, version, n), Installed(before, image, version, n)]
    requires ReadSizesOk(chunk, |data|) && |data| < USIZE_LIMIT - 1 && |data| <= |d.bp[1]|
    requires NoneRejected(d, 1, chunk, |data|, 0, oracle, tick)
    requires ReadFrom(d, 1, chunk, data, 0, oracle, tick).ok
    requires lba as int * 512 + size as int <= |data| && lba as int * 512 + size as int <= n && size % 512 == 0
    ensures RamDiskReadBlocks(media, ReadFrom(d, 1, chunk, data, 0, oracle, tick).data, media, lba, size)
         == Ok(Complete(image, version, n)[lba as int * 512..lba as int * 512 + size as int])
    ensures IMAGE_INFO_OFFSET + IMAGE_INFO_BYTES <= |d.bp[0]| && PartitionVersion(d.bp[0]) == version
  {
    hide Complete;
    hide PartitionVersion;
    hide ReadFrom;
    hide NoneRejected;
    CleanReadIsExact(d, 1, chunk, data, 0, oracle, tick);
    var ram := ReadFrom(d, 1, chunk, data, 0, oracle, tick).data;
    RamDiskReadsTheBuffer(media, ram, media, lba, size);
    RunOfBytes(Complete(image, version, n), before.staging[n..], ram, lba as int * 512, size);
    CompleteVersion(image, version, n, before.staging[n..]);
  }

  // A controller that carries every command out lets the read through without a rejection.
  lemma {:induction false} HealthyReadIsClean(d: Device, p: nat, chunk: nat, data: seq<byte>, off: nat, oracle: nat -> Outcome, tick: nat)
    requires d.Valid() && p < 2 && ReadSizesOk(chunk, |data|) && off <= |data| <= |d.bp[p]| && off % 4 == 0
    requires forall n: nat | tick <= n :: oracle(n) == Executed
    ensures ReadFrom(d, p, chunk, data, off, oracle, tick).ok && NoneRejected(d, p, chunk, |data|, off, oracle, tick)
    decreases |data| - off
  {
    if off < |data| {
      hide Execute;
      hide LogPageCommand;
      var bytes := ChunkBytes(chunk, |data|, off);
      ChunkArrives(d, p, off, bytes, oracle(tick));
      var next := Splice(data, off, d.bp[p][off..off + bytes]);
      HealthyReadIsClean(d, p, chunk, next, off + bytes, oracle, tick + 1);
    }
  }

  /** A RAM disk over `data` reads like `content` at every run of whole blocks inside both. */
  ghost predicate Serves(data: seq<byte>, content: seq<byte>)
    requires |data| < USIZE_LIMIT - 1
  {
    forall media: u32, lba: u64, size: u64 |
      lba as int * 512 + size as int <= |data| && lba as int * 512 + size as int <= |content| && size % 512 == 0 ::
      RamDiskReadBlocks(media, data, media, lba, size) == Ok(content[lba as int * 512..lba as int * 512 + size as int])
  }

  /** The whole path as the code runs it: update both partitions, ask for the installed version, and
      read the recovery partition back. `tick` numbers the first command of that read. */
  method UpdateAndRecover(fmp: FmpDeviceLib, image: seq<byte>, version: u32, addrA: nat, addrB: nat, addrV: nat,
                          notify: bool, setVariable: bool, identify: Option<byte>, dest: array<byte>)
    returns (update: Status, query: Status, installed: u32, read: Status, ghost tick: nat)
    requires fmp.Valid() && fmp.Allocated(addrA) && fmp.Allocated(addrB) && fmp.Allocated(addrV)
    requires dest.Length + LOG_HEADER_BYTES < USIZE_LIMIT
    modifies fmp, fmp.storage, fmp.storage.ctrl, dest
    ensures fmp.Valid() && fmp.WholeBytes() == old(fmp.WholeBytes())
    ensures update == Success && query == Success ==> installed == version
    ensures update == Success && read == Success ==>
              && IMAGE_INFO_OFFSET + IMAGE_INFO_BYTES <= fmp.WholeBytes() && |image| <= fmp.WholeBytes()
              && ReadSizesOk(ProbeMaxTransfer(identify), dest.Length)
              && (NoneRejected(fmp.storage.ctrl.dev, 1, ProbeMaxTransfer(identify), dest.Length, 0,
                               fmp.storage.ctrl.oracle, tick) ==>
                    Serves(dest[..], Complete(image, version, fmp.WholeBytes())))
    // On a controller that carries every command out each of the three succeeds.
    ensures old(fmp.storage.Healthy()) && old(fmp.Updatable(0)) && old(fmp.Updatable(1)) ==>
              (addrA != 0 && addrB != 0 && addrV != 0 && image != [] && |image| <= fmp.WholeBytes() ==>
                 && update == Success && query == Success && installed == version
                 && (dest.Length % 4 == 0 && dest.Length <= fmp.WholeBytes() ==>
                       read == Success && Serves(dest[..], Complete(image, version, fmp.WholeBytes()))))
  {
    hide ReadFrom;
    hide NoneRejected;
    hide Serves;
    hide Complete;
    hide PartitionVersion;
    hide ProbeMaxTransfer;
    hide GeometryOk;
    hide SessionInv;
    ghost var before := fmp.storage.ctrl.dev;
    var attempt;
    update, attempt := fmp.SetImage(image, version, addrA, addrB, notify, setVariable);
    query, installed := fmp.GetVersion(addrV);
    ProbeIsClampedPower(identify);
    var chunk := ProbeMaxTransfer(identify);
    tick := fmp.storage.ctrl.tick;
    ghost var d, oracle, data, n := fmp.storage.ctrl.dev, fmp.storage.ctrl.oracle, dest[..], fmp.WholeBytes();
    read := ReadBpViaLogPage(fmp.storage.ctrl, 1, chunk, dest);
    if update == Success {
      CompleteVersion(image, version, n, before.staging[n..]);
      if read == Success {
        ServesAfterUpdate(before, d, image, version, n, chunk, data, oracle, tick);
      }
      if |data| % 4 == 0 && |data| <= n && forall k: nat | tick <= k :: oracle(k) == Executed {
        HealthyReadIsClean(d, 1, chunk, data, 0, oracle, tick);
      }
    }
  }

  lemma ServesAfterUpdate(before: Device, d: Device, image: seq<byte>, version: u32, n: nat,
                          chunk: nat, data: seq<byte>, oracle: nat -> Outcome, tick: nat)
    requires before.Valid() && d.Valid()
    requires |image| <= n && IMAGE_INFO_OFFSET + IMAGE_INFO_BYTES <= n <= |before.staging|
    requires d.bp == [Installed(before, image, version, n), Installed(before, image, version, n)]
    requires ReadSizesOk(chunk, |data|) && ReadFrom(d, 1, chunk, data, 0, oracle, tick).ok
    ensures NoneRejected(d, 1, chunk, |data|, 0, oracle, tick) ==>
              Serves(ReadFrom(d, 1, chunk, data, 0, oracle, tick).data, Complete(image, version, n))
  {
    hide ReadFrom;
    hide NoneRejected;
    hide Complete;
    hide RamDiskReadBlocks;
    if NoneRejected(d, 1, chunk, |data|, 0, oracle, tick) {
      CleanReadIsExact(d, 1, chunk, data, 0, oracle, tick);
      forall media: u32, lba: u64, size: u64 |
        lba as int * 512 + size as int <= |data| && lba as int * 512 + size as int <= n && size % 512 == 0
        ensures RamDiskReadBlocks(media, ReadFrom(d, 1, chunk, data, 0, oracle, tick).data, media, lba, size)
             == Ok(Complete(image, version, n)[lba as int * 512..lba as int * 512 + size as int])
      {
        UpdateThenRecover(before, d, image, version, n, chunk, data, oracle, tick, media, lba, size);
      }
    }
  }
}
