/** Nested ACPI values: packed type/length/data records, recursively for packages, and the argument
    section the input serializer writes. */
module AcpiValues {
  import opened Bytes
  import opened Utf8

  const KIND_INTEGER := 0
  const KIND_STRING := 1
  const KIND_BUFFER := 2
  const KIND_PACKAGE := 3
  const KIND_PACKAGE_EX := 4

  datatype AcpiValue =
    | Integer(value: u32)
    | String(text: seq<scalar>)
    | Buffer(bytes: seq<byte>)
    | Package(items: seq<AcpiValue>)
    | Malformed(bytes: seq<byte>)

  // ---- Parsing ----------------------------------------------------------------------------

  /** A whole record starts here: a 4-byte header and as many data bytes as it announces. */
  predicate StartsRecord(b: seq<byte>) {
    |b| >= 4 && 4 + FromLe16(b[2..4]) as int <= |b|
  }

  function BodyOf(b: seq<byte>): seq<byte>
    requires StartsRecord(b)
  {
    b[4..4 + FromLe16(b[2..4]) as int]
  }

  function ParseValues(b: seq<byte>): seq<AcpiValue>
    decreases |b|, 0
  {
    if b == [] then []
    else if !StartsRecord(b) then [Malformed(b)]
    else [ValueFrom(FromLe16(b[..2]), BodyOf(b))] + ParseValues(b[4 + |BodyOf(b)|..])
  }

  function ValueFrom(kind: u16, data: seq<byte>): AcpiValue
    decreases |data|, 1
  {
    if kind == KIND_INTEGER then Integer(LeadingWord(data))
    else if kind == KIND_STRING then String(TrimNuls(DecodeLossy(data)))
    else if kind == KIND_PACKAGE || kind == KIND_PACKAGE_EX then Package(ParseValues(data))
    else Buffer(data)
  }

  /** The first four bytes, zero-extended. */
  function LeadingWord(data: seq<byte>): u32 {
    FromLe32(data[..if |data| < 4 then |data| else 4] + Zeros(4 - if |data| < 4 then |data| else 4))
  }

  function TrimNuls(s: seq<scalar>): (t: seq<scalar>)
    ensures t <= s && (t == [] || t[|t| - 1] != 0)
    ensures forall i | |t| <= i < |s| :: s[i] == 0
  {
    if s == [] || s[|s| - 1] != 0 then s else TrimNuls(s[..|s| - 1])
  }

  /** `parse_acpi_values`: a running offset, recursing into packages. */
  method ParseAcpiValues(bytes: seq<byte>) returns (values: seq<AcpiValue>)
    ensures values == ParseValues(bytes)
    decreases |bytes|, 2
  {
    values := [];
    var offset := 0;
    ghost var all := ParseValues(bytes);
    assert bytes[0..] == bytes && [] + all == all;
    assert ParseValues([]) == [];
    hide *;
    while offset < |bytes|
      invariant offset <= |bytes|
      invariant all == values + ParseValues(bytes[offset..])
    {
      var value, next := NextValue(bytes, offset);
      Associate(values, [value], ParseValues(bytes[next..]));
      values, offset := values + [value], next;
    }
    assert bytes[offset..] == [] && values + [] == values;
  }

  /** One round: the value of the record at the offset and where it ends, or the malformed rest, which
      ends the loop. */
  method NextValue(bytes: seq<byte>, offset: nat) returns (value: AcpiValue, next: nat)
    requires offset < |bytes|
    ensures offset < next <= |bytes| && ParseValues(bytes[offset..]) == [value] + ParseValues(bytes[next..])
    decreases |bytes|, 1
  {
    hide *;
    ParseAt(bytes, offset);
    NothingAtEnd(bytes);
    if offset + 4 > |bytes| {
      return Malformed(bytes[offset..]), |bytes|;
    }
    var length := FromLe16(bytes[offset + 2..offset + 4]);
    if offset + 4 + length as int > |bytes| {
      return Malformed(bytes[offset..]), |bytes|;
    }
    next := offset + 4 + length as int;
    value := AcpiValueFrom(FromLe16(bytes[offset..offset + 2]), bytes[offset + 4..next]);
  }

  lemma Associate(a: seq<AcpiValue>, b: seq<AcpiValue>, c: seq<AcpiValue>)
    ensures a + (b + c) == (a + b) + c
  {
  }

  method AcpiValueFrom(kind: u16, data: seq<byte>) returns (value: AcpiValue)
    ensures value == ValueFrom(kind, data)
    decreases |data|, 3
  {
    match kind {
      case 0 => value := Integer(LeadingWord(data));
      case 1 => value := String(TrimNuls(DecodeLossy(data)));
      case 3 =>
        var items := ParseAcpiValues(data);
        value := Package(items);
      case 4 =>
        var items := ParseAcpiValues(data);
        value := Package(items);
      case _ => value := Buffer(data);
    }
  }

  lemma NothingAtEnd(b: seq<byte>)
    ensures ParseValues(b[|b|..]) == []
  {
  }

  // Parsing a suffix is parsing at an offset.
  lemma ParseAt(b: seq<byte>, offset: nat)
    requires offset < |b|
    ensures ParseValues(b[offset..]) ==
              if offset + 4 > |b| || offset + 4 + FromLe16(b[offset + 2..offset + 4]) as int > |b|
              then [Malformed(b[offset..])]
              else
                var next := offset + 4 + FromLe16(b[offset + 2..offset + 4]) as int;
                [ValueFrom(FromLe16(b[offset..offset + 2]), b[offset + 4..next])] + ParseValues(b[next..])
  {
    hide FromLe16;
    hide ValueFrom;
    var rest := b[offset..];
    if offset + 4 <= |b| {
      assert rest[..2] == b[offset..offset + 2] && rest[2..4] == b[offset + 2..offset + 4];
      var length: nat := FromLe16(b[offset + 2..offset + 4]);
      if offset + 4 + length <= |b| {
        assert rest[4..4 + length] == b[offset + 4..offset + 4 + length];
        assert rest[4 + length..] == b[offset + 4 + length..];
      }
    }
  }

  // ---- Tiling and inversion ---------------------------------------------------------------

  /** A record on the wire. */
  datatype Record = Record(kind: u16, data: seq<byte>)

  predicate Encodable(rs: seq<Record>) {
    forall i | 0 <= i < |rs| :: |rs[i].data| < 0x1_0000
  }

  function EncodeRecord(r: Record): seq<byte> {
    Le16(r.kind) + Le16(ToU16(|r.data|)) + r.data
  }

  function Encode(rs: seq<Record>): seq<byte> {
    if rs == [] then [] else EncodeRecord(rs[0]) + Encode(rs[1..])
  }

  function ValuesOf(rs: seq<Record>): (vs: seq<AcpiValue>)
    ensures |vs| == |rs|
  {
    if rs == [] then [] else [ValueFrom(rs[0].kind, rs[0].data)] + ValuesOf(rs[1..])
  }

  /** What is left where no further record starts. */
  predicate IsRemainder(rest: seq<byte>) {
    rest == [] || !StartsRecord(rest)
  }

  // Parsing inverts any list of records followed by any remainder: one value per record in order,
  // and a nonempty remainder becomes one final malformed item.
  lemma {:induction false} ParseInvertsEncode(rs: seq<Record>, rest: seq<byte>)
    requires Encodable(rs) && IsRemainder(rest)
    ensures ParseValues(Encode(rs) + rest) == ValuesOf(rs) + if rest == [] then [] else [Malformed(rest)]
    decreases |rs|
  {
    if rs == [] {
      assert Encode(rs) + rest == rest;
    } else {
      var more := Encode(rs[1..]) + rest;
      assert Encode(rs) + rest == EncodeRecord(rs[0]) + more;
      ParseFirst(rs[0], more);
      ParseInvertsEncode(rs[1..], rest);
      Associate([ValueFrom(rs[0].kind, rs[0].data)], ValuesOf(rs[1..]), if rest == [] then [] else [Malformed(rest)]);
    }
  }

  lemma ParseFirst(r: Record, more: seq<byte>)
    requires |r.data| < 0x1_0000
    ensures ParseValues(EncodeRecord(r) + more) == [ValueFrom(r.kind, r.data)] + ParseValues(more)
  {
    EncodedStarts(r, more);
  }

  lemma EncodedStarts(r: Record, more: seq<byte>)
    requires |r.data| < 0x1_0000
    ensures var b := EncodeRecord(r) + more;
            && StartsRecord(b) && BodyOf(b) == r.data
            && FromLe16(b[..2]) == r.kind && b[4 + |r.data|..] == more
  {
    hide FromLe16;
    hide Le16;
    var b := EncodeRecord(r) + more;
    assert b[..2] == Le16(r.kind) && b[2..4] == Le16(|r.data|);
    Le16RoundTrip(r.kind);
    Le16RoundTrip(|r.data|);
  }

  // Every byte string tiles into records and a remainder, so nothing is dropped or read twice.
  lemma {:induction false} EveryInputTiles(b: seq<byte>) returns (rs: seq<Record>, rest: seq<byte>)
    ensures Encodable(rs) && IsRemainder(rest) && b == Encode(rs) + rest
    ensures ParseValues(b) == ValuesOf(rs) + if rest == [] then [] else [Malformed(rest)]
    decreases |b|
  {
    rs, rest := Tile(b);
    ParseInvertsEncode(rs, rest);
  }

  lemma {:induction false} Tile(b: seq<byte>) returns (rs: seq<Record>, rest: seq<byte>)
    ensures Encodable(rs) && IsRemainder(rest) && b == Encode(rs) + rest
    decreases |b|
  {
    if b == [] || !StartsRecord(b) {
      return [], b;
    }
    var r := Record(FromLe16(b[..2]), BodyOf(b));
    var more := b[4 + |r.data|..];
    var rs', rest' := Tile(more);
    FirstRecord(b);
    rs, rest := [r] + rs', rest';
    assert rs[1..] == rs';
    assert EncodeRecord(r) + (Encode(rs') + rest) == (EncodeRecord(r) + Encode(rs')) + rest;
  }

  // The bytes before the first record's end are that record.
  lemma FirstRecord(b: seq<byte>)
    requires StartsRecord(b)
    ensures b == EncodeRecord(Record(FromLe16(b[..2]), BodyOf(b))) + b[4 + |BodyOf(b)|..]
  {
    Le16Inverse(b[..2]);
    Le16Inverse(b[2..4]);
    assert b == b[..2] + b[2..4] + BodyOf(b) + b[4 + |BodyOf(b)|..];
  }

  // ---- The input section ------------------------------------------------------------------

  datatype MethodArgument =
    | IntArg(i: u32)
    | GuidArg(g: seq<byte>)
    | StringArg(s: seq<scalar>)
    | BufferArg(b: seq<byte>)

  /** The driver form of one argument; data longer than 16 bits can count is an error. */
  function ToRecord(a: MethodArgument): Option<Record> {
    match a
    case GuidArg(g) => Some(Record(KIND_BUFFER, g))
    case IntArg(i) => Some(Record(KIND_INTEGER, Le32(i)))
    case StringArg(s) =>
      if |EncodeText(s)| + 1 < 0x1_0000 then Some(Record(KIND_STRING, EncodeText(s) + [0])) else None
    case BufferArg(b) => if |b| < 0x1_0000 then Some(Record(KIND_BUFFER, b)) else None
  }

  /** All arguments, or an error if one does not convert. */
  function ToRecords(args: seq<MethodArgument>): Option<seq<Record>> {
    if args == [] then Some([])
    else match (ToRecord(args[0]), ToRecords(args[1..]))
      case (Some(r), Some(rs)) => Some([r] + rs)
      case _ => None
  }

  const NAME_BYTES := 256
  /** "AeiF" */
  const INPUT_SIGNATURE: seq<byte> := [0x41, 0x65, 0x69, 0x46]

  function DataBytes(rs: seq<Record>): nat {
    if rs == [] then 0 else |rs[0].data| + DataBytes(rs[1..])
  }

  /** The method name, cut or zero-padded to its fixed field. */
  function NameField(name: seq<byte>): (f: seq<byte>)
    ensures |f| == NAME_BYTES
  {
    var n := if |name| < NAME_BYTES then |name| else NAME_BYTES;
    name[..n] + Zeros(NAME_BYTES - n)
  }

  /** The packed input buffer: signature, name, data size, argument count, arguments. */
  function Serialize(name: seq<byte>, args: seq<MethodArgument>): Option<seq<byte>> {
    match ToRecords(args)
    case None => None
    case Some(rs) =>
      Some(INPUT_SIGNATURE + NameField(name) + Le32(ToU32(DataBytes(rs))) + Le32(ToU32(|rs|)) + Encode(rs))
  }

  const SECTION_OFFSET := 268

  /** `From<AcpiEvalInputBufferComplexV1Ex> for Vec<u8>`: extend the buffer field by field. */
  method SerializeInput(name: seq<byte>, args: seq<MethodArgument>) returns (buf: Option<seq<byte>>)
    ensures buf == Serialize(name, args)
  {
    var records := ToRecords(args);
    if records.None? {
      return None;
    }
    var rs := records.value;
    var out := INPUT_SIGNATURE + NameField(name) + Le32(ToU32(DataBytes(rs))) + Le32(ToU32(|rs|));
    ghost var header := out;
    assert header + Encode(rs) == header + ([] + Encode(rs[0..]));
    ghost var done: seq<byte> := [];
    for i := 0 to |rs|
      invariant out == header + done && done + Encode(rs[i..]) == Encode(rs)
    {
      ghost var r := EncodeRecord(rs[i]);
      assert rs[i..][1..] == rs[i + 1..];
      assert done + (r + Encode(rs[i + 1..])) == (done + r) + Encode(rs[i + 1..]);
      assert header + (done + r) == ((header + done) + Le16(rs[i].kind) + Le16(ToU16(|rs[i].data|))) + rs[i].data;
      out := out + Le16(rs[i].kind);
      out := out + Le16(ToU16(|rs[i].data|));
      out := out + rs[i].data;
      done := done + r;
    }
    assert rs[|rs|..] == [] && done + [] == done;
    return Some(out);
  }

  /** The value a receiver sees for an argument: a string loses its trailing NULs. */
  function Received(a: MethodArgument): AcpiValue {
    match a
    case IntArg(i) => Integer(i)
    case GuidArg(g) => Buffer(g)
    case BufferArg(b) => Buffer(b)
    case StringArg(s) => String(TrimNuls(s))
  }

  function ReceivedAll(args: seq<MethodArgument>): (vs: seq<AcpiValue>)
    ensures |vs| == |args|
  {
    if args == [] then [] else [Received(args[0])] + ReceivedAll(args[1..])
  }

  predicate GuidsAre16(args: seq<MethodArgument>) {
    forall i | 0 <= i < |args| :: args[i].GuidArg? ==> |args[i].g| == 16
  }

  // The argument section parses back to the arguments: integers, GUIDs and buffers exactly, and
  // strings up to their trailing NULs.
  lemma SectionRoundTrip(name: seq<byte>, args: seq<MethodArgument>)
    requires GuidsAre16(args) && Serialize(name, args).Some?
    ensures |Serialize(name, args).value| >= SECTION_OFFSET
    ensures ParseValues(Serialize(name, args).value[SECTION_OFFSET..]) == ReceivedAll(args)
  {
    var rs := ToRecords(args).value;
    ArgumentsAsRecords(args);
    ParseInvertsEncode(rs, []);
    assert Encode(rs) + [] == Encode(rs) && ValuesOf(rs) + [] == ValuesOf(rs);
    var header := INPUT_SIGNATURE + NameField(name) + Le32(ToU32(DataBytes(rs))) + Le32(ToU32(|rs|));
    assert |header| == SECTION_OFFSET;
    assert (header + Encode(rs))[SECTION_OFFSET..] == Encode(rs);
  }

  lemma {:induction false} ArgumentsAsRecords(args: seq<MethodArgument>)
    requires GuidsAre16(args) && ToRecords(args).Some?
    ensures Encodable(ToRecords(args).value) && ValuesOf(ToRecords(args).value) == ReceivedAll(args)
  {
    if args != [] {
      ArgumentsAsRecords(args[1..]);
      var r, rs := ToRecord(args[0]).value, ToRecords(args[1..]).value;
      ArgumentAsRecord(args[0]);
      assert ([r] + rs)[1..] == rs;
    }
  }

  lemma ArgumentAsRecord(a: MethodArgument)
    requires ToRecord(a).Some? && (a.GuidArg? ==> |a.g| == 16)
    ensures |ToRecord(a).value.data| < 0x1_0000
    ensures ValueFrom(ToRecord(a).value.kind, ToRecord(a).value.data) == Received(a)
  {
    hide DecodeLossy;
    hide EncodeText;
    hide TrimNuls;
    match a
    case IntArg(i) =>
      Le32RoundTrip(i);
      assert Le32(i)[..4] + Zeros(0) == Le32(i);
    case StringArg(s) => StringReadBack(s);
    case GuidArg(_) =>
    case BufferArg(_) =>
  }

  lemma StringReadBack(s: seq<scalar>)
    ensures TrimNuls(DecodeLossy(EncodeText(s) + [0])) == TrimNuls(s)
  {
    EncodeTextAppend(s, 0);
    TextRoundTrip(s + [0]);
    assert EncodeScalar(0) == [0];
    assert (s + [0])[..|s|] == s;
  }

  // A string argument survives unchanged exactly when it does not end in a NUL.
  lemma StringSurvives(s: seq<scalar>)
    ensures Received(StringArg(s)) == String(s) <==> (s == [] || s[|s| - 1] != 0)
  {
  }

  // One argument on the wire: its type (0 a number, 1 a string, 2 a buffer or GUID), its length, and a
  // number's four bytes, a string's text with a NUL, or the bytes themselves.
  lemma ArgumentOnWire(a: MethodArgument)
    requires ToRecord(a).Some? && (a.GuidArg? ==> |a.g| == 16)
    ensures var data := match a
                        case IntArg(i) => [i % 256, (i / 256) % 256, (i / 65536) % 256, i / 16777216]
                        case GuidArg(g) => g
                        case StringArg(s) => EncodeText(s) + [0]
                        case BufferArg(b) => b;
            var kind := if a.IntArg? then 0 else if a.StringArg? then 1 else 2;
            && |data| <= 65535
            && EncodeRecord(ToRecord(a).value) == [kind, 0, |data| % 256, ToU16(|data|) / 256] + data
  {
    hide EncodeText;
    hide EncodeRecord;
    hide Le32;
    RecordOnWire(ToRecord(a).value);
    if a.IntArg? {
      WordDigits(a.i);
    }
  }

  lemma RecordOnWire(r: Record)
    requires |r.data| < 0x1_0000
    ensures EncodeRecord(r) == [r.kind % 256, r.kind / 256, |r.data| % 256, ToU16(|r.data|) / 256] + r.data
  {
  }

  lemma WordDigits(i: u32)
    ensures Le32(i) == [i % 256, (i / 256) % 256, (i / 65536) % 256, i / 16777216]
  {
    var low, high := i % 65536, i / 65536;
    assert low % 256 == i % 256 && low / 256 == (i / 256) % 256;
    assert high % 256 == (i / 65536) % 256 && high / 256 == i / 16777216;
  }

  // ---- The input header -------------------------------------------------------------------

  lemma {:induction false} EncodedBytes(rs: seq<Record>)
    ensures |Encode(rs)| == 4 * |rs| + DataBytes(rs)
  {
    if rs != [] {
      EncodedBytes(rs[1..]);
    }
  }

  lemma {:induction false} ConvertsUnlessLong(args: seq<MethodArgument>)
    ensures ToRecords(args).Some? <==>
              forall i | 0 <= i < |args| ::
                && (args[i].StringArg? ==> |EncodeText(args[i].s)| <= 65534)
                && (args[i].BufferArg? ==> |args[i].b| <= 65535)
    ensures ToRecords(args).Some? ==> |ToRecords(args).value| == |args|
  {
    if args != [] {
      hide EncodeText;
      ConvertsUnlessLong(args[1..]);
      assert forall i | 0 <= i < |args[1..]| :: args[1..][i] == args[i + 1];
    }
  }

  // The input buffer: "AeiF", the name cut or zero-padded to 256 bytes, the data bytes without the
  // records' own headers, the argument count, and the records. It exists exactly if every string with
  // its NUL and every buffer fits a 16-bit length.
  lemma InputHeader(name: seq<byte>, args: seq<MethodArgument>)
    ensures Serialize(name, args).Some? <==>
              forall i | 0 <= i < |args| ::
                && (args[i].StringArg? ==> |EncodeText(args[i].s)| <= 65534)
                && (args[i].BufferArg? ==> |args[i].b| <= 65535)
    ensures Serialize(name, args).Some? ==>
              var b := Serialize(name, args).value;
              && |b| >= 268 + 4 * |args|
              && b[..4] == [0x41, 0x65, 0x69, 0x46]
              && (forall i | 0 <= i < 256 :: b[4 + i] == if i < |name| then name[i] else 0)
              && b[260..264] == Le32(ToU32(|b| - 268 - 4 * |args|))
              && b[264..268] == Le32(ToU32(|args|))
  {
    ConvertsUnlessLong(args);
    if ToRecords(args).Some? {
      var rs := ToRecords(args).value;
      EncodedBytes(rs);
      hide Encode;
      hide DataBytes;
      hide ToRecords;
      hide Le32;
      var f := NameField(name);
      FieldsAt(INPUT_SIGNATURE, f, Le32(ToU32(DataBytes(rs))), Le32(ToU32(|rs|)), Encode(rs));
      assert forall i | 0 <= i < 256 :: f[i] == if i < |name| then name[i] else 0;
    }
  }

  lemma FieldsAt(a: seq<byte>, f: seq<byte>, c: seq<byte>, d: seq<byte>, more: seq<byte>)
    requires |a| == 4 && |f| == 256 && |c| == 4 && |d| == 4
    ensures var b := a + f + c + d + more;
            && |b| == 268 + |more| && b[..4] == a && b[260..264] == c && b[264..268] == d
            && forall i | 0 <= i < 256 :: b[4 + i] == f[i]
  {
  }
}
