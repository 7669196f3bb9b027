/** Decoding an ACPI evaluation output buffer: a 12-byte header and exactly `count` arguments, each
    a type, a length, the data, and padding to at least four data bytes. */
module AcpiOutput {
  import opened Bytes

  datatype ParseError = InsufficientLength | InvalidFormat

  /** `data32` shares storage with the data bytes of an integer; it is 0 for every other type. */
  datatype Argument = Argument(kind: u16, dataLength: u16, data32: u32, data: seq<byte>)

  const HEADER_BYTES := 12
  /** "AeoB" */
  const SIGNATURE: seq<byte> := [0x41, 0x65, 0x6F, 0x42]

  // ---- The format -------------------------------------------------------------------------

  function Max(a: nat, b: nat): nat {
    if a < b then b else a
  }

  function RecordBytes(a: Argument): nat {
    4 + Max(|a.data|, 4)
  }

  /** The bytes of one argument; padding bytes may hold anything. */
  predicate IsRecord(r: seq<byte>, a: Argument) {
    && |r| == RecordBytes(a)
    && r[..2] == Le16(a.kind) && r[2..4] == Le16(a.dataLength)
    && |a.data| == a.dataLength && r[4..4 + |a.data|] == a.data
    && a.data32 == if a.kind == 0 then FromLe32(r[4..8]) else 0
  }

  predicate AreRecords(b: seq<byte>, args: seq<Argument>) {
    if args == [] then b == []
    else
      && RecordBytes(args[0]) <= |b|
      && IsRecord(b[..RecordBytes(args[0])], args[0])
      && AreRecords(b[RecordBytes(args[0])..], args[1..])
  }

  /** A buffer that is a correct header followed by exactly the records of `args`. */
  predicate IsOutput(v: seq<byte>, args: seq<Argument>) {
    && HEADER_BYTES <= |v| < 0x1_0000_0000 && |args| < 0x1_0000_0000
    && v[..4] == SIGNATURE && v[4..8] == Le32(|v|) && v[8..12] == Le32(|args|)
    && AreRecords(v[HEADER_BYTES..], args)
  }

  // ---- The decoder on values --------------------------------------------------------------

  function DecodeRecords(b: seq<byte>, count: nat): Result<seq<Argument>, ParseError> {
    if count == 0 then
      if b == [] then Ok([]) else Err(InvalidFormat)
    else if |b| < 8 then Err(InsufficientLength)
    else
      var length: nat := FromLe16(b[2..4]);
      if 4 + length > |b| then Err(InsufficientLength)
      else
        Prepend([FirstArgument(b)], DecodeRecords(b[4 + Max(length, 4)..], count - 1))
  }

  function FirstArgument(b: seq<byte>): (a: Argument)
    requires |b| >= 8 && 4 + FromLe16(b[2..4]) as int <= |b|
    ensures RecordBytes(a) == 4 + Max(FromLe16(b[2..4]), 4)
  {
    var kind, length := FromLe16(b[..2]), FromLe16(b[2..4]);
    Argument(kind, length, if kind == 0 then FromLe32(b[4..8]) else 0, b[4..4 + length as int])
  }

  function Prepend(args: seq<Argument>, r: Result<seq<Argument>, ParseError>): Result<seq<Argument>, ParseError> {
    match r
    case Ok(more) => Ok(args + more)
    case Err(e) => Err(e)
  }

  function Decode(v: seq<byte>): Result<seq<Argument>, ParseError> {
    if |v| < HEADER_BYTES then Err(InsufficientLength)
    else if v[..4] != SIGNATURE || FromLe32(v[4..8]) as int != |v| then Err(InvalidFormat)
    else DecodeRecords(v[HEADER_BYTES..], FromLe32(v[8..12]))
  }

  /** `AcpiEvalOutputBufferV1::try_from`: one pass over the buffer with a running offset. */
  method TryFrom(value: seq<byte>) returns (r: Result<seq<Argument>, ParseError>)
    ensures r == Decode(value)
  {
    if |value| < 12 {
      return Err(InsufficientLength);
    }
    var length, count := FromLe32(value[4..8]), FromLe32(value[8..12]);
    if value[..4] != SIGNATURE || length as int != |value| {
      return Err(InvalidFormat);
    }
    r := ReadArguments(value, count);
    OffsetsAreSuffixes(value, HEADER_BYTES, count);
  }

  /** The decoder with a running offset instead of suffixes. */
  function DecodeFrom(v: seq<byte>, offset: nat, count: nat): Result<seq<Argument>, ParseError>
    requires offset <= |v|
    decreases count
  {
    if count == 0 then
      if offset == |v| then Ok([]) else Err(InvalidFormat)
    else if offset + 8 > |v| then Err(InsufficientLength)
    else
      var length: nat := FromLe16(v[offset + 2..offset + 4]);
      if offset + 4 + length > |v| then Err(InsufficientLength)
      else Prepend([ArgumentAt(v, offset)], DecodeFrom(v, offset + 4 + Max(length, 4), count - 1))
  }

  lemma {:induction false} OffsetsAreSuffixes(v: seq<byte>, offset: nat, count: nat)
    requires offset <= |v|
    ensures DecodeFrom(v, offset, count) == DecodeRecords(v[offset..], count)
    decreases count
  {
    hide DecodeRecords;
    hide ArgumentAt;
    DecodeAt(v, offset, count);
    if count > 0 && offset + 8 <= |v| {
      var length: nat := FromLe16(v[offset + 2..offset + 4]);
      if offset + 4 + length <= |v| {
        OffsetsAreSuffixes(v, offset + 4 + Max(length, 4), count - 1);
      }
    }
  }

  /** The argument loop. */
  method ReadArguments(value: seq<byte>, count: u32) returns (r: Result<seq<Argument>, ParseError>)
    requires |value| >= HEADER_BYTES
    ensures r == DecodeFrom(value, HEADER_BYTES, count)
  {
    hide DecodeFrom;
    hide Prepend;
    hide FromLe16;
    hide FromLe32;
    var offset := HEADER_BYTES;
    var arguments: seq<Argument> := [];
    PrependNothing(DecodeFrom(value, HEADER_BYTES, count));
    for i := 0 to count as int
      invariant HEADER_BYTES <= offset <= |value|
      invariant DecodeFrom(value, HEADER_BYTES, count) == Prepend(arguments, DecodeFrom(value, offset, count as int - i))
    {
      ghost var start, left := offset, count as int - i;
      DecodeFromStep(value, start, left);
      PrependError(arguments);
      if offset + 8 > |value| {
        return Err(InsufficientLength);
      }
      var kind := FromLe16(value[offset..offset + 2]);
      var dataLength := FromLe16(value[offset + 2..offset + 4]);
      var data32 := if kind == 0 then FromLe32(value[offset + 4..offset + 8]) else 0;
      offset := offset + 4;
      if offset + dataLength as int > |value| {
        return Err(InsufficientLength);
      }
      var data := value[offset..offset + dataLength as int];
      offset := offset + Max(dataLength, 4);
      PrependTwice(arguments, [Argument(kind, dataLength, data32, data)], DecodeFrom(value, offset, left - 1));
      arguments := arguments + [Argument(kind, dataLength, data32, data)];
    }
    DecodeFromEnds(value, offset, arguments);
    if offset != |value| {
      return Err(InvalidFormat);
    }
    return Ok(arguments);
  }

  lemma DecodeFromStep(v: seq<byte>, offset: nat, n: nat)
    requires offset <= |v| && n > 0
    ensures DecodeFrom(v, offset, n) ==
              if offset + 8 > |v| then Err(InsufficientLength)
              else
                var kind, length := FromLe16(v[offset..offset + 2]), FromLe16(v[offset + 2..offset + 4]);
                if offset + 4 + length as int > |v| then Err(InsufficientLength)
                else
                  var data := v[offset + 4..offset + 4 + length as int];
                  var a := Argument(kind, length, if kind == 0 then FromLe32(v[offset + 4..offset + 8]) else 0, data);
                  Prepend([a], DecodeFrom(v, offset + 4 + Max(length, 4), n - 1))
    ensures offset + 8 <= |v| && offset + 4 + FromLe16(v[offset + 2..offset + 4]) as int <= |v| ==>
              offset + 4 + Max(FromLe16(v[offset + 2..offset + 4]), 4) <= |v|
  {
  }

  lemma DecodeFromEnds(v: seq<byte>, offset: nat, arguments: seq<Argument>)
    requires offset <= |v|
    ensures Prepend(arguments, DecodeFrom(v, offset, 0)) == if offset == |v| then Ok(arguments) else Err(InvalidFormat)
  {
    assert arguments + [] == arguments;
  }

  lemma PrependError(args: seq<Argument>)
    ensures Prepend(args, Err(InsufficientLength)) == Err(InsufficientLength)
  {
  }

  /** The argument whose record starts at `offset`. */
  function ArgumentAt(v: seq<byte>, offset: nat): Argument
    requires offset + 8 <= |v| && offset + 4 + FromLe16(v[offset + 2..offset + 4]) as int <= |v|
  {
    var kind, length := FromLe16(v[offset..offset + 2]), FromLe16(v[offset + 2..offset + 4]);
    Argument(kind, length, if kind == 0 then FromLe32(v[offset + 4..offset + 8]) else 0,
             v[offset + 4..offset + 4 + length as int])
  }

  // Decoding a suffix is decoding at an offset.
  lemma DecodeAt(v: seq<byte>, offset: nat, n: nat)
    requires offset <= |v|
    ensures DecodeRecords(v[offset..], n) ==
              if n == 0 then (if offset == |v| then Ok([]) else Err(InvalidFormat))
              else if offset + 8 > |v| then Err(InsufficientLength)
              else if offset + 4 + FromLe16(v[offset + 2..offset + 4]) as int > |v| then Err(InsufficientLength)
              else Prepend([ArgumentAt(v, offset)],
                           DecodeRecords(v[offset + 4 + Max(FromLe16(v[offset + 2..offset + 4]), 4)..], n - 1))
  {
    var b := v[offset..];
    if n > 0 && offset + 8 <= |v| {
      ArgumentInSuffix(v, offset);
      hide DecodeRecords;
      hide FirstArgument;
      hide ArgumentAt;
      hide FromLe16;
      DecodeStep(b, n);
      var length: nat := FromLe16(b[2..4]);
      if offset + 4 + length <= |v| {
        assert b[4 + Max(length, 4)..] == v[offset + 4 + Max(length, 4)..];
      }
    }
  }

  lemma DecodeStep(b: seq<byte>, n: nat)
    requires n > 0 && |b| >= 8
    ensures DecodeRecords(b, n) ==
              if 4 + FromLe16(b[2..4]) as int > |b| then Err(InsufficientLength)
              else Prepend([FirstArgument(b)], DecodeRecords(b[4 + Max(FromLe16(b[2..4]), 4)..], n - 1))
  {
  }

  lemma ArgumentInSuffix(v: seq<byte>, offset: nat)
    requires offset + 8 <= |v|
    ensures v[offset..][2..4] == v[offset + 2..offset + 4]
    ensures offset + 4 + FromLe16(v[offset + 2..offset + 4]) as int <= |v| ==>
              FirstArgument(v[offset..]) == ArgumentAt(v, offset)
  {
    hide FromLe16;
    hide FromLe32;
    var b := v[offset..];
    assert b[..2] == v[offset..offset + 2] && b[2..4] == v[offset + 2..offset + 4];
    assert b[4..8] == v[offset + 4..offset + 8];
    var length: nat := FromLe16(b[2..4]);
    if offset + 4 + length <= |v| {
      assert b[4..4 + length] == v[offset + 4..offset + 4 + length];
    }
  }

  lemma PrependNothing(r: Result<seq<Argument>, ParseError>)
    ensures Prepend([], r) == r
  {
    if r.Ok? {
      assert [] + r.value == r.value;
    }
  }

  lemma PrependTwice(a: seq<Argument>, b: seq<Argument>, r: Result<seq<Argument>, ParseError>)
    ensures Prepend(a, Prepend(b, r)) == Prepend(a + b, r)
  {
    if r.Ok? {
      assert a + (b + r.value) == a + b + r.value;
    }
  }

  // ---- Exactness --------------------------------------------------------------------------

  lemma {:induction false} DecodeRecordsSound(b: seq<byte>, count: nat)
    requires DecodeRecords(b, count).Ok?
    ensures |DecodeRecords(b, count).value| == count && AreRecords(b, DecodeRecords(b, count).value)
  {
    if count > 0 {
      var a := FirstArgument(b);
      FirstIsRecord(b);
      DecodeRecordsSound(b[RecordBytes(a)..], count - 1);
      var more := DecodeRecords(b[RecordBytes(a)..], count - 1).value;
      assert ([a] + more)[1..] == more;
    }
  }

  lemma FirstIsRecord(b: seq<byte>)
    requires |b| >= 8 && 4 + FromLe16(b[2..4]) as int <= |b|
    ensures RecordBytes(FirstArgument(b)) <= |b|
    ensures IsRecord(b[..RecordBytes(FirstArgument(b))], FirstArgument(b))
  {
    var a := FirstArgument(b);
    var r := b[..RecordBytes(a)];
    Le16Inverse(b[..2]);
    Le16Inverse(b[2..4]);
    assert r[..2] == b[..2] && r[2..4] == b[2..4] && r[4..8] == b[4..8];
    assert r[4..4 + |a.data|] == a.data;
  }

  lemma RecordIsFirst(b: seq<byte>, a: Argument)
    requires RecordBytes(a) <= |b| && IsRecord(b[..RecordBytes(a)], a)
    ensures FromLe16(b[2..4]) as int == |a.data| && 4 + |a.data| <= |b| && FirstArgument(b) == a
  {
    var r := b[..RecordBytes(a)];
    assert r[..2] == b[..2] && r[2..4] == b[2..4] && r[4..8] == b[4..8];
    assert r[4..4 + |a.data|] == b[4..4 + |a.data|];
    Le16RoundTrip(a.kind);
    Le16RoundTrip(a.dataLength);
  }

  lemma {:induction false} DecodeRecordsComplete(b: seq<byte>, args: seq<Argument>)
    requires AreRecords(b, args)
    ensures DecodeRecords(b, |args|) == Ok(args)
  {
    if args != [] {
      RecordIsFirst(b, args[0]);
      DecodeRecordsComplete(b[RecordBytes(args[0])..], args[1..]);
      assert [args[0]] + args[1..] == args;
    }
  }

  // The decoder accepts exactly the buffers of the format, and returns the one argument list they
  // hold.
  lemma DecodeIsExact(v: seq<byte>, args: seq<Argument>)
    requires |args| < 0x1_0000_0000
    ensures Decode(v) == Ok(args) <==> IsOutput(v, args)
  {
    if IsOutput(v, args) {
      Le32RoundTrip(|v|);
      Le32RoundTrip(|args|);
      DecodeRecordsComplete(v[HEADER_BYTES..], args);
    }
    if Decode(v) == Ok(args) {
      DecodeRecordsSound(v[HEADER_BYTES..], FromLe32(v[8..12]));
      Le32Inverse(v[4..8]);
      Le32Inverse(v[8..12]);
    }
  }

  // ---- The builder ------------------------------------------------------------------------

  /** One argument as a responder writes it: the length truncates to 16 bits, padding is zero. */
  function BuildRecord(kind: u16, data: seq<byte>): seq<byte> {
    Le16(kind) + Le16(ToU16(|data|)) + data + Zeros(if |data| < 4 then 4 - |data| else 0)
  }

  function BuildRecords(arguments: seq<(u16, seq<byte>)>): seq<byte> {
    if arguments == [] then []
    else BuildRecord(arguments[0].0, arguments[0].1) + BuildRecords(arguments[1..])
  }

  function Build(arguments: seq<(u16, seq<byte>)>): seq<byte> {
    var body := BuildRecords(arguments);
    SIGNATURE + Le32(ToU32(HEADER_BYTES + |body|)) + Le32(ToU32(|arguments|)) + body
  }

  /** The decoded arguments carry the given types and data, an integer's value read from its first
      four stored bytes. */
  predicate Carries(args: seq<Argument>, arguments: seq<(u16, seq<byte>)>) {
    && |args| == |arguments|
    && forall i | 0 <= i < |args| ::
         && args[i].kind == arguments[i].0 && args[i].data == arguments[i].1
         && args[i].dataLength as int == |arguments[i].1|
         && args[i].data32 == if args[i].kind == 0 then StoredWord(args[i].data) else 0
  }

  function StoredWord(data: seq<byte>): u32 {
    FromLe32((data + Zeros(4))[..4])
  }

  function Decoded(arguments: seq<(u16, seq<byte>)>): (args: seq<Argument>)
    requires forall i | 0 <= i < |arguments| :: |arguments[i].1| < 0x1_0000
    ensures Carries(args, arguments)
  {
    seq(|arguments|, i requires 0 <= i < |arguments| =>
      var (kind, data) := arguments[i];
      Argument(kind, |data|, if kind == 0 then StoredWord(data) else 0, data))
  }

  lemma {:induction false} BuiltRecords(arguments: seq<(u16, seq<byte>)>)
    requires forall i | 0 <= i < |arguments| :: |arguments[i].1| < 0x1_0000
    ensures AreRecords(BuildRecords(arguments), Decoded(arguments))
    ensures |BuildRecords(arguments)| >= 8 * |arguments|
  {
    if arguments != [] {
      var (kind, data) := arguments[0];
      var a := Decoded(arguments)[0];
      var r, rest := BuildRecord(kind, data), BuildRecords(arguments[1..]);
      BuiltRecord(kind, data);
      BuiltRecords(arguments[1..]);
      assert (r + rest)[..RecordBytes(a)] == r && (r + rest)[RecordBytes(a)..] == rest;
      assert Decoded(arguments)[1..] == Decoded(arguments[1..]);
    }
  }

  lemma BuiltRecord(kind: u16, data: seq<byte>)
    requires |data| < 0x1_0000
    ensures IsRecord(BuildRecord(kind, data), Argument(kind, |data|, if kind == 0 then StoredWord(data) else 0, data))
  {
    var r := BuildRecord(kind, data);
    assert r[..2] == Le16(kind) && r[2..4] == Le16(|data|) && r[4..4 + |data|] == data;
    assert r[4..8] == (data + Zeros(4))[..4];
  }

  // Decoding inverts the builder exactly when no 16-bit data length and no 32-bit total truncates.
  lemma BuilderRoundTrip(arguments: seq<(u16, seq<byte>)>)
    ensures (Decode(Build(arguments)).Ok? && Carries(Decode(Build(arguments)).value, arguments)) <==>
            && |Build(arguments)| < 0x1_0000_0000
            && forall i | 0 <= i < |arguments| :: |arguments[i].1| < 0x1_0000
  {
    if |Build(arguments)| < 0x1_0000_0000 && forall i | 0 <= i < |arguments| :: |arguments[i].1| < 0x1_0000 {
      BuiltDecodes(arguments);
    }
    if Decode(Build(arguments)).Ok? && Carries(Decode(Build(arguments)).value, arguments) {
      AcceptedLength(Build(arguments));
      CarriedLengths(Decode(Build(arguments)).value, arguments);
    }
  }

  // A 64 KiB buffer argument is such a case: its length is written as zero.
  lemma LongDataIsLost()
    ensures var arguments := [(2, Zeros(0x1_0000))];
            !(Decode(Build(arguments)).Ok? && Carries(Decode(Build(arguments)).value, arguments))
  {
    var arguments: seq<(u16, seq<byte>)> := [(2, Zeros(0x1_0000))];
    assert |arguments[0].1| == 0x1_0000;
    BuilderRoundTrip(arguments);
  }

  lemma BuiltDecodes(arguments: seq<(u16, seq<byte>)>)
    requires |Build(arguments)| < 0x1_0000_0000
    requires forall i | 0 <= i < |arguments| :: |arguments[i].1| < 0x1_0000
    ensures Decode(Build(arguments)) == Ok(Decoded(arguments))
  {
    BuiltHeader(arguments);
    BuiltRecords(arguments);
    hide Build;
    hide BuildRecords;
    hide AreRecords;
    FitsU32(|Build(arguments)|);
    FitsU32(|arguments|);
    assert IsOutput(Build(arguments), Decoded(arguments));
    DecodeIsExact(Build(arguments), Decoded(arguments));
  }

  lemma AcceptedLength(v: seq<byte>)
    requires Decode(v).Ok?
    ensures |v| < 0x1_0000_0000
  {
  }

  lemma BuiltHeader(arguments: seq<(u16, seq<byte>)>)
    ensures var v := Build(arguments);
            && |v| == HEADER_BYTES + |BuildRecords(arguments)|
            && v[..4] == SIGNATURE && v[4..8] == Le32(ToU32(|v|)) && v[8..12] == Le32(ToU32(|arguments|))
            && v[HEADER_BYTES..] == BuildRecords(arguments)
  {
  }

  lemma CarriedLengths(args: seq<Argument>, arguments: seq<(u16, seq<byte>)>)
    requires Carries(args, arguments)
    ensures forall i | 0 <= i < |arguments| :: |arguments[i].1| < 0x1_0000
  {
    forall i | 0 <= i < |arguments|
      ensures |arguments[i].1| < 0x1_0000
    {
      assert args[i].dataLength as int == |arguments[i].1|;
    }
  }

  // ---- Truncation -------------------------------------------------------------------------

  /** The first `m` bytes of a buffer with the length field corrected to `m`. */
  function Truncated(v: seq<byte>, m: nat): seq<byte>
    requires HEADER_BYTES <= m <= |v| && m < 0x1_0000_0000
  {
    v[..4] + Le32(m) + v[8..m]
  }

  // No proper prefix of an accepted buffer is accepted, even with its length field corrected: the
  // decoder runs out of bytes.
  lemma NoPrefixIsAccepted(v: seq<byte>, m: nat)
    requires Decode(v).Ok? && HEADER_BYTES <= m < |v|
    ensures m < 0x1_0000_0000 && Decode(Truncated(v, m)) == Err(InsufficientLength)
  {
    AcceptedLength(v);
    TruncatedParts(v[..4], Le32(m), v[8..12], v[12..m]);
    assert v[8..m] == v[8..12] + v[12..m];
    Le32RoundTrip(m);
    assert v[12..m] == v[HEADER_BYTES..][..m - HEADER_BYTES];
    ShorterRunsOut(v[HEADER_BYTES..], FromLe32(v[8..12]), m - HEADER_BYTES);
  }

  lemma TruncatedParts(a: seq<byte>, b: seq<byte>, c: seq<byte>, d: seq<byte>)
    requires |a| == 4 && |b| == 4 && |c| == 4
    ensures var t := a + b + (c + d);
            t[..4] == a && t[4..8] == b && t[8..12] == c && t[HEADER_BYTES..] == d
  {
  }

  lemma {:induction false} ShorterRunsOut(b: seq<byte>, count: nat, n: nat)
    requires DecodeRecords(b, count).Ok? && n < |b|
    ensures DecodeRecords(b[..n], count) == Err(InsufficientLength)
  {
    var t := b[..n];
    if n >= 8 {
      assert t[2..4] == b[2..4];
      var length: nat := FromLe16(b[2..4]);
      if 4 + length <= n {
        var size := 4 + Max(length, 4);
        assert t[size..] == b[size..][..n - size];
        ShorterRunsOut(b[size..], count - 1, n - size);
      }
    }
  }

  // ---- The errors -------------------------------------------------------------------------

  lemma {:induction false} LeftoverFound(b: seq<byte>, count: nat) returns (n: nat, args: seq<Argument>)
    requires DecodeRecords(b, count) == Err(InvalidFormat)
    ensures n < |b| && |args| == count && AreRecords(b[..n], args)
  {
    if count == 0 {
      n, args := 0, [];
    } else {
      var a := FirstArgument(b);
      var size := RecordBytes(a);
      FirstIsRecord(b);
      var m, more := LeftoverFound(b[size..], count - 1);
      n, args := size + m, [a] + more;
      assert b[..n][..size] == b[..size] && b[..n][size..] == b[size..][..m];
      assert args[1..] == more;
    }
  }

  lemma {:induction false} LeftoverRejected(b: seq<byte>, n: nat, args: seq<Argument>)
    requires n < |b| && AreRecords(b[..n], args)
    ensures DecodeRecords(b, |args|) == Err(InvalidFormat)
    decreases |args|
  {
    if args != [] {
      var size := RecordBytes(args[0]);
      assert b[..n][..size] == b[..size] && b[..n][size..] == b[size..][..n - size];
      RecordIsFirst(b, args[0]);
      LeftoverRejected(b[size..], n - size, args[1..]);
    }
  }

  /** `count` records begin the bytes past the header and do not use them up. */
  ghost predicate LeavesBytes(v: seq<byte>, count: nat) {
    |v| >= 12 && exists n, args :: 0 <= n < |v| - 12 && |args| == count && AreRecords(v[12..][..n], args)
  }

  // A buffer that is not accepted is malformed if its signature or length is wrong or bytes follow
  // its last argument; otherwise it ends too early.
  lemma ErrorsAreExact(v: seq<byte>)
    ensures Decode(v) == Err(InvalidFormat) <==>
              && |v| >= 12
              && (v[..4] != [0x41, 0x65, 0x6F, 0x42] || |v| >= 0x1_0000_0000 || v[4..8] != Le32(|v|)
                  || LeavesBytes(v, FromLe32(v[8..12])))
    ensures Decode(v).Err? ==> Decode(v).error == InvalidFormat || Decode(v).error == InsufficientLength
  {
    hide DecodeRecords;
    hide AreRecords;
    if |v| >= 12 {
      Le32Inverse(v[4..8]);
      if |v| < 0x1_0000_0000 { Le32RoundTrip(|v|); }
      var b, count := v[HEADER_BYTES..], FromLe32(v[8..12]);
      if DecodeRecords(b, count) == Err(InvalidFormat) {
        var n, args := LeftoverFound(b, count);
      }
      if LeavesBytes(v, count) {
        var n, args :| 0 <= n < |v| - 12 && |args| == count && AreRecords(v[12..][..n], args);
        LeftoverRejected(b, n, args);
      }
    }
  }
}
