/** The bytes one SRE update puts on a partition, block by block. */
module SreImage {
  import opened Arithmetic
  import opened Bytes
  import opened SreStorage

  const IMAGE_INFO_SIG := 0x4945_5253
  const IMAGE_INFO_OFFSET := 0x4400
  const IMAGE_INFO_STRUCT_VER := 1
  const IMAGE_INFO_BYTES := 32

  /** SRE_IMAGE_INFO: signature, structure version, firmware version and five reserved words. */
  function Descriptor(version: u32): (d: seq<byte>)
    ensures |d| == IMAGE_INFO_BYTES
  {
    Le32(IMAGE_INFO_SIG) + Le32(IMAGE_INFO_STRUCT_VER) + Le32(version) + Zeros(20)
  }

  function Padded(image: seq<byte>, n: nat): (b: seq<byte>)
    requires |image| <= n
    ensures |b| == n
  {
    image + Zeros(n - |image|)
  }

  /** The complete contents: the image, zeros to the end, and the descriptor at its fixed offset. */
  function Complete(image: seq<byte>, version: u32, n: nat): (b: seq<byte>)
    requires |image| <= n && IMAGE_INFO_OFFSET + IMAGE_INFO_BYTES <= n
    ensures |b| == n
  {
    Splice(Padded(image, n), IMAGE_INFO_OFFSET, Descriptor(version))
  }

  /** The version a descriptor records; anything that is not a descriptor is version 0. */
  function VersionOf(descriptor: seq<byte>): u32
    requires |descriptor| == IMAGE_INFO_BYTES
  {
    if FromLe32(descriptor[..4]) == IMAGE_INFO_SIG && FromLe32(descriptor[4..8]) == IMAGE_INFO_STRUCT_VER
    then FromLe32(descriptor[8..12])
    else 0
  }

  /** The version recorded at the fixed offset of a partition. */
  function PartitionVersion(bp: seq<byte>): u32
    requires IMAGE_INFO_OFFSET + IMAGE_INFO_BYTES <= |bp|
  {
    VersionOf(bp[IMAGE_INFO_OFFSET..IMAGE_INFO_OFFSET + IMAGE_INFO_BYTES])
  }

  // The descriptor lies inside one block of the partition for every geometry the constructor
  // accepts, so the apply loop always stamps it and never takes its straddling error path.
  lemma DescriptorInOneBlock(blockSize: nat, blockCount: nat, bpBytes: nat)
    requires GeometryOk(blockSize, blockCount, bpBytes)
    ensures IMAGE_INFO_OFFSET % blockSize + IMAGE_INFO_BYTES <= blockSize
    ensures IMAGE_INFO_OFFSET / blockSize < blockCount
    ensures IMAGE_INFO_OFFSET + IMAGE_INFO_BYTES <= blockCount * blockSize
  {
    BlockFits(blockSize, blockCount, bpBytes, 0);
    if blockSize >= 5 * FWUG_RESOLUTION {
      WholeInFirstBlock(IMAGE_INFO_OFFSET, blockSize);
      MulMonotone(1, blockCount, blockSize);
    } else {
      SmallBlocks(blockSize);
      AtLeastEight(bpBytes, blockSize);
      MulMonotone(8, blockCount, blockSize);
    }
  }

  lemma WholeInFirstBlock(offset: nat, blockSize: nat)
    requires offset < blockSize
    ensures offset / blockSize == 0 && offset % blockSize == offset
  {
  }

  lemma SmallBlocks(blockSize: nat)
    requires blockSize % FWUG_RESOLUTION == 0 && FWUG_RESOLUTION <= blockSize < 5 * FWUG_RESOLUTION
    ensures IMAGE_INFO_OFFSET % blockSize + IMAGE_INFO_BYTES <= blockSize
    ensures IMAGE_INFO_OFFSET / blockSize <= 4
  {
    assert blockSize == 0x1000 || blockSize == 0x2000 || blockSize == 0x3000 || blockSize == 0x4000;
  }

  lemma AtLeastEight(bpBytes: nat, blockSize: nat)
    requires bpBytes >= 0x2_0000 && 0 < blockSize <= 0x4000
    ensures bpBytes / blockSize >= 8
  {
    var q := bpBytes / blockSize;
    assert bpBytes < q * blockSize + blockSize;
    if q < 8 {
      MulMonotone(q, 7, blockSize);
    }
  }

  // Blocks of the padded image: the next bytes of the image, then zeros.
  lemma PaddedBlock(image: seq<byte>, n: nat, from: nat, size: nat)
    requires |image| <= n && from + size <= n
    ensures var pos := if from < |image| then from else |image|;
            var take := if |image| - pos < size then |image| - pos else size;
            Padded(image, n)[from..from + size] == image[pos..pos + take] + Zeros(size - take)
  {
  }

  // Stamping the whole partition is stamping the one block that holds the descriptor.
  lemma StampedBlock(whole: seq<byte>, at: nat, src: seq<byte>, from: nat, size: nat)
    requires at + |src| <= |whole| && from + size <= |whole|
    requires (from <= at && at + |src| <= from + size) || at + |src| <= from || from + size <= at
    ensures Splice(whole, at, src)[from..from + size] ==
            if from <= at && at + |src| <= from + size then Splice(whole[from..from + size], at - from, src)
            else whole[from..from + size]
  {
    var stamped, block := Splice(whole, at, src), whole[from..from + size];
    if from <= at && at + |src| <= from + size {
      var stampedBlock := Splice(block, at - from, src);
      forall k | 0 <= k < |block|
        ensures stampedBlock[k] == stamped[from + k]
      {
        SpliceAt(whole, at, src, from + k);
        SpliceAt(block, at - from, src, k);
      }
      assert stamped[from..from + size] == stampedBlock;
    } else {
      forall k | 0 <= k < |block|
        ensures block[k] == stamped[from + k]
      {
        SpliceAt(whole, at, src, from + k);
      }
      assert stamped[from..from + size] == block;
    }
  }

  lemma SpliceAt(dst: seq<byte>, at: nat, src: seq<byte>, k: nat)
    requires at + |src| <= |dst| && k < |dst|
    ensures Splice(dst, at, src)[k] == if at <= k < at + |src| then src[k - at] else dst[k]
  {
  }

  lemma VersionRoundTrip(version: u32)
    ensures VersionOf(Descriptor(version)) == version
  {
    var d := Descriptor(version);
    assert d[..4] == Le32(IMAGE_INFO_SIG);
    assert d[4..8] == Le32(IMAGE_INFO_STRUCT_VER);
    assert d[8..12] == Le32(version);
    Le32RoundTrip(IMAGE_INFO_SIG);
    Le32RoundTrip(IMAGE_INFO_STRUCT_VER);
    Le32RoundTrip(version);
  }

  // A partition that starts with the complete contents records the version they were built with.
  lemma CompleteVersion(image: seq<byte>, version: u32, n: nat, tail: seq<byte>)
    requires |image| <= n && IMAGE_INFO_OFFSET + IMAGE_INFO_BYTES <= n
    ensures PartitionVersion(Complete(image, version, n) + tail) == version
  {
    VersionRoundTrip(version);
    var bp := Complete(image, version, n) + tail;
    assert bp[IMAGE_INFO_OFFSET..IMAGE_INFO_OFFSET + IMAGE_INFO_BYTES] == Descriptor(version);
  }

  // The descriptor found in its block is the one at the fixed offset of the partition.
  lemma DescriptorInBlock(bp: seq<byte>, from: nat, blockSize: nat, at: nat)
    requires from + blockSize <= |bp| && at + IMAGE_INFO_BYTES <= blockSize
    requires from + at == IMAGE_INFO_OFFSET
    ensures VersionOf(bp[from..from + blockSize][at..at + IMAGE_INFO_BYTES]) == PartitionVersion(bp)
  {
    assert bp[from..from + blockSize][at..at + IMAGE_INFO_BYTES]
        == bp[IMAGE_INFO_OFFSET..IMAGE_INFO_OFFSET + IMAGE_INFO_BYTES];
  }

  // ---- On raw bytes -----------------------------------------------------------------------

  /** "SREI" and structure version 1. */
  const DESCRIPTOR_START: seq<byte> := [0x53, 0x52, 0x45, 0x49, 1, 0, 0, 0]

  /** The four bytes of a version, low byte first. */
  function VersionBytes(version: u32): (b: seq<byte>)
    ensures |b| == 4
  {
    [version % 256, (version / 256) % 256, (version / 65536) % 256, version / 16777216]
  }

  lemma VersionBytesAreLe32(version: u32)
    ensures Le32(version) == VersionBytes(version)
  {
    var low, high := version % 65536, version / 65536;
    assert low % 256 == version % 256 && low / 256 == (version / 256) % 256;
    assert high % 256 == (version / 65536) % 256 && high / 256 == version / 16777216;
  }

  lemma StartBytes()
    ensures Le32(IMAGE_INFO_SIG) == DESCRIPTOR_START[..4] && Le32(IMAGE_INFO_STRUCT_VER) == DESCRIPTOR_START[4..]
    ensures Le32(IMAGE_INFO_SIG) + Le32(IMAGE_INFO_STRUCT_VER) == DESCRIPTOR_START
  {
    VersionBytesAreLe32(IMAGE_INFO_SIG);
    VersionBytesAreLe32(IMAGE_INFO_STRUCT_VER);
    assert VersionBytes(IMAGE_INFO_SIG) == [0x53, 0x52, 0x45, 0x49];
    assert VersionBytes(IMAGE_INFO_STRUCT_VER) == [1, 0, 0, 0];
  }

  // Every byte of the complete contents: the descriptor at 0x4400, else the image, else zero.
  lemma CompleteBytes(image: seq<byte>, version: u32, n: nat, i: nat)
    requires |image| <= n && 0x4420 <= n && i < n
    ensures Complete(image, version, n)[i] ==
              if 0x4400 <= i < 0x4408 then DESCRIPTOR_START[i - 0x4400]
              else if 0x4408 <= i < 0x440C then VersionBytes(version)[i - 0x4408]
              else if 0x440C <= i < 0x4420 then 0
              else if i < |image| then image[i]
              else 0
  {
    VersionBytesAreLe32(version);
    StartBytes();
    SpliceAt(Padded(image, n), IMAGE_INFO_OFFSET, Descriptor(version), i);
  }

  // The version a partition reports: the word after a valid start of a descriptor, else 0.
  lemma VersionOnBytes(bp: seq<byte>)
    requires 0x4420 <= |bp|
    ensures if bp[0x4400..0x4408] == DESCRIPTOR_START then VersionBytes(PartitionVersion(bp)) == bp[0x4408..0x440C]
            else PartitionVersion(bp) == 0
  {
    var d := bp[0x4400..0x4420];
    assert d[..4] == bp[0x4400..0x4404] && d[4..8] == bp[0x4404..0x4408] && d[8..12] == bp[0x4408..0x440C];
    StartIsDecoded(bp[0x4400..0x4408]);
    assert bp[0x4400..0x4408][..4] == d[..4] && bp[0x4400..0x4408][4..] == d[4..8];
    Le32Inverse(d[8..12]);
    VersionBytesAreLe32(FromLe32(d[8..12]));
  }

  lemma StartIsDecoded(b: seq<byte>)
    requires |b| == 8
    ensures b == DESCRIPTOR_START <==> FromLe32(b[..4]) == IMAGE_INFO_SIG && FromLe32(b[4..]) == IMAGE_INFO_STRUCT_VER
  {
    Le32Inverse(b[..4]);
    Le32Inverse(b[4..]);
    assert b == b[..4] + b[4..];
    StartBytes();
    Le32RoundTrip(IMAGE_INFO_SIG);
    Le32RoundTrip(IMAGE_INFO_STRUCT_VER);
  }
}
