/** Bytes, fixed-width words and the little-endian encodings every wire format here uses. */
module Bytes {

  datatype Option<+T> = None | Some(value: T)

  datatype Result<+T, +E> = Ok(value: T) | Err(error: E)

  type byte = x: int | 0 <= x < 0x100
  type u16 = x: int | 0 <= x < 0x1_0000
  type u32 = x: int | 0 <= x < 0x1_0000_0000
  type u64 = x: int | 0 <= x < 0x1_0000_0000_0000_0000

  /** The C cast to UINT32: keeps the low 32 bits. */
  function ToU32(x: nat): u32 {
    x % 0x1_0000_0000
  }

  lemma FitsU32(x: nat)
    requires x < 0x1_0000_0000
    ensures ToU32(x) == x
  {
  }

  /** The C cast to UINT16 (Rust `as u16`): keeps the low 16 bits. */
  function ToU16(x: nat): u16 {
    x % 0x1_0000
  }

  function Zeros(n: nat): (z: seq<byte>)
    ensures |z| == n && forall i :: 0 <= i < n ==> z[i] == 0
  {
    seq(n, i => 0)
  }

  function Le16(x: u16): (b: seq<byte>)
    ensures |b| == 2
  {
    [x % 0x100, x / 0x100]
  }

  function Le32(x: u32): (b: seq<byte>)
    ensures |b| == 4
  {
    Le16(x % 0x1_0000) + Le16(x / 0x1_0000)
  }

  function Le64(x: u64): (b: seq<byte>)
    ensures |b| == 8
  {
    Le32(x % 0x1_0000_0000) + Le32(x / 0x1_0000_0000)
  }

  function FromLe16(b: seq<byte>): u16
    requires |b| == 2
  {
    b[0] as int + 0x100 * b[1] as int
  }

  function FromLe32(b: seq<byte>): u32
    requires |b| == 4
  {
    FromLe16(b[..2]) as int + 0x1_0000 * FromLe16(b[2..]) as int
  }

  function FromLe64(b: seq<byte>): u64
    requires |b| == 8
  {
    FromLe32(b[..4]) as int + 0x1_0000_0000 * FromLe32(b[4..]) as int
  }

  lemma Le16RoundTrip(x: u16)
    ensures FromLe16(Le16(x)) == x
  {
  }

  lemma Le32RoundTrip(x: u32)
    ensures FromLe32(Le32(x)) == x
  {
    var b := Le32(x);
    assert b[..2] == Le16(x % 0x1_0000);
    assert b[2..] == Le16(x / 0x1_0000);
  }

  lemma Le64RoundTrip(x: u64)
    ensures FromLe64(Le64(x)) == x
  {
    var b := Le64(x);
    assert b[..4] == Le32(x % 0x1_0000_0000);
    assert b[4..] == Le32(x / 0x1_0000_0000);
    Le32RoundTrip(x % 0x1_0000_0000);
    Le32RoundTrip(x / 0x1_0000_0000);
  }

  lemma Le16Inverse(b: seq<byte>)
    requires |b| == 2
    ensures Le16(FromLe16(b)) == b
  {
  }

  lemma SplitWord(lo: u16, hi: u16)
    ensures (lo as int + 0x1_0000 * hi as int) % 0x1_0000 == lo
    ensures (lo as int + 0x1_0000 * hi as int) / 0x1_0000 == hi
  {
  }

  lemma Le32Inverse(b: seq<byte>)
    requires |b| == 4
    ensures Le32(FromLe32(b)) == b
  {
    Le16Inverse(b[..2]);
    Le16Inverse(b[2..]);
    SplitWord(FromLe16(b[..2]), FromLe16(b[2..]));
    assert b == b[..2] + b[2..];
  }

  /** `dst` with the bytes from `offset` on replaced by `src`: CopyMem into a buffer. */
  function Splice(dst: seq<byte>, offset: nat, src: seq<byte>): (r: seq<byte>)
    requires offset + |src| <= |dst|
    ensures |r| == |dst|
    ensures r[..offset] == dst[..offset]
    ensures r[offset..offset + |src|] == src
    ensures r[offset + |src|..] == dst[offset + |src|..]
  {
    dst[..offset] + src + dst[offset + |src|..]
  }

  // Byte i of a word counts 256^i: the low byte comes first.
  lemma LittleEndian(x: u16, y: u32, z: u64)
    ensures x == Le16(x)[0] as int + 0x100 * Le16(x)[1] as int
    ensures var b := Le32(y);
            y == b[0] as int + 0x100 * b[1] as int + 0x1_0000 * b[2] as int + 0x100_0000 * b[3] as int
    ensures var b := Le64(z);
            z == b[0] as int + 0x100 * b[1] as int + 0x1_0000 * b[2] as int + 0x100_0000 * b[3] as int
                 + 0x1_0000_0000 * b[4] as int + 0x100_0000_0000 * b[5] as int
                 + 0x1_0000_0000_0000 * b[6] as int + 0x100_0000_0000_0000 * b[7] as int
  {
    WordBytes(y);
    WordBytes(z % 0x1_0000_0000);
    WordBytes(z / 0x1_0000_0000);
    var b, low, high := Le64(z), Le32(z % 0x1_0000_0000), Le32(z / 0x1_0000_0000);
    assert b[0] == low[0] && b[1] == low[1] && b[2] == low[2] && b[3] == low[3];
    assert b[4] == high[0] && b[5] == high[1] && b[6] == high[2] && b[7] == high[3];
  }

  lemma WordBytes(y: u32)
    ensures var b := Le32(y);
            y == b[0] as int + 0x100 * b[1] as int + 0x1_0000 * b[2] as int + 0x100_0000 * b[3] as int
  {
    var low, high := Le16(y % 0x1_0000), Le16(y / 0x1_0000);
    assert Le32(y)[2] == high[0] && Le32(y)[3] == high[1];
  }
}
