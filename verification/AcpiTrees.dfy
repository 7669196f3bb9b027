/** Nested ACPI values as trees: their bytes, what they mean, and that the parser reads every byte
    string as the trees it is made of. */
module AcpiTrees {
  import opened Bytes
  import opened Utf8
  import opened AcpiValues

  /** One record on the wire. A package holds records and, if they do not fill it, a rest where no
      further record starts. */
  datatype Tree =
    | Number(data: seq<byte>)
    | Text(data: seq<byte>)
    | Nest(extended: bool, items: seq<Tree>, rest: seq<byte>)
    | Other(kind: u16, data: seq<byte>)

  function Kind(t: Tree): u16 {
    match t
    case Number(_) => 0
    case Text(_) => 1
    case Nest(extended, _, _) => if extended then 4 else 3
    case Other(kind, _) => kind
  }

  function Body(t: Tree): seq<byte>
    decreases t, 0
  {
    match t
    case Number(data) => data
    case Text(data) => data
    case Nest(_, items, rest) => WireAll(items) + rest
    case Other(_, data) => data
  }

  /** Kind and length in two bytes each, low byte first, then the body. */
  function Wire(t: Tree): seq<byte>
    decreases t, 1
  {
    [Kind(t) % 256, Kind(t) / 256, |Body(t)| % 256, ToU16(|Body(t)|) / 256] + Body(t)
  }

  function WireAll(ts: seq<Tree>): seq<byte>
    decreases ts, 2
  {
    if ts == [] then [] else Wire(ts[0]) + WireAll(ts[1..])
  }

  /** No record starts here: fewer than four bytes, or fewer than they announce. */
  predicate NoRecord(rest: seq<byte>) {
    |rest| < 4 || rest[2] as int + 256 * rest[3] as int > |rest| - 4
  }

  /** Bodies of at most 65535 bytes, unknown kinds only where they say so. */
  ghost predicate Fits(t: Tree)
    decreases t, 1
  {
    && |Body(t)| <= 65535
    && (t.Other? ==> t.kind !in {0, 1, 3, 4})
    && (t.Nest? ==> NoRecord(t.rest) && FitAll(t.items))
  }

  ghost predicate FitAll(ts: seq<Tree>)
    decreases ts, 2
  {
    forall i | 0 <= i < |ts| :: Fits(ts[i])
  }

  /** Byte `i`, or zero past the end. */
  function ByteAt(data: seq<byte>, i: nat): byte {
    if i < |data| then data[i] else 0
  }

  /** The value a record stands for: a number is its first four bytes, low byte first and padded
      with zeros; a text loses its trailing NULs; unknown kinds are buffers. */
  function Meaning(t: Tree): AcpiValue
    decreases t, 1
  {
    match t
    case Number(data) =>
      Integer(ByteAt(data, 0) as int + 256 * ByteAt(data, 1) as int + 65536 * ByteAt(data, 2) as int
              + 16777216 * ByteAt(data, 3) as int)
    case Text(data) => String(TrimNuls(DecodeLossy(data)))
    case Nest(_, items, rest) => Package(MeaningAll(items) + Tail(rest))
    case Other(_, data) => Buffer(data)
  }

  function MeaningAll(ts: seq<Tree>): (vs: seq<AcpiValue>)
    ensures |vs| == |ts|
    decreases ts, 2
  {
    if ts == [] then [] else [Meaning(ts[0])] + MeaningAll(ts[1..])
  }

  /** A rest is reported as one malformed item. */
  function Tail(rest: seq<byte>): seq<AcpiValue> {
    if rest == [] then [] else [Malformed(rest)]
  }

  // ---- Parsing reads the meaning ----------------------------------------------------------

  lemma WireIsRecord(t: Tree)
    requires |Body(t)| <= 65535
    ensures Wire(t) == EncodeRecord(Record(Kind(t), Body(t)))
  {
    hide Body;
  }

  lemma NoRecordIsRemainder(rest: seq<byte>)
    ensures IsRemainder(rest) <==> NoRecord(rest)
  {
  }

  lemma NumberMeans(data: seq<byte>)
    ensures Integer(LeadingWord(data)) == Meaning(Number(data))
  {
    var n := if |data| < 4 then |data| else 4;
    var word := data[..n] + Zeros(4 - n);
    assert forall i | 0 <= i < 4 :: word[i] == ByteAt(data, i);
    assert word[..2] == [word[0], word[1]] && word[2..] == [word[2], word[3]];
  }

  // The parser returns the values of the trees, at every depth.
  lemma {:induction false} TreesParse(ts: seq<Tree>, rest: seq<byte>)
    requires FitAll(ts) && NoRecord(rest)
    ensures ParseValues(WireAll(ts) + rest) == MeaningAll(ts) + Tail(rest)
    decreases ts, 2
  {
    NoRecordIsRemainder(rest);
    if ts == [] {
      assert WireAll(ts) + rest == rest;
    } else {
      var more := WireAll(ts[1..]) + rest;
      assert Fits(ts[0]);
      TreesParse(ts[1..], rest);
      TreeParses(ts[0], more);
      assert WireAll(ts) + rest == Wire(ts[0]) + more;
      Associate([Meaning(ts[0])], MeaningAll(ts[1..]), Tail(rest));
    }
  }

  lemma {:induction false} TreeParses(t: Tree, more: seq<byte>)
    requires Fits(t)
    ensures ParseValues(Wire(t) + more) == [Meaning(t)] + ParseValues(more)
    decreases t, 1
  {
    hide ParseValues;
    WireIsRecord(t);
    ParseFirst(Record(Kind(t), Body(t)), more);
    match t
    case Number(data) => NumberMeans(data);
    case Nest(_, items, rest) => TreesParse(items, rest);
    case _ =>
  }

  // Every byte string is trees and a rest, so the parser is defined by their meaning on all inputs.
  lemma {:induction false} EveryInputIsTrees(b: seq<byte>) returns (ts: seq<Tree>, rest: seq<byte>)
    ensures FitAll(ts) && NoRecord(rest) && b == WireAll(ts) + rest
    ensures ParseValues(b) == MeaningAll(ts) + Tail(rest)
    decreases |b|, 0
  {
    if NoRecord(b) {
      ts, rest := [], b;
    } else {
      NoRecordIsRemainder(b);
      var data := BodyOf(b);
      FirstRecord(b);
      var t := TreeOf(FromLe16(b[..2]), data);
      var later, last := EveryInputIsTrees(b[4 + |data|..]);
      WireIsRecord(t);
      ts, rest := [t] + later, last;
      assert ts[1..] == later;
      assert Wire(t) + (WireAll(later) + rest) == (Wire(t) + WireAll(later)) + rest;
    }
    TreesParse(ts, rest);
  }

  lemma {:induction false} TreeOf(kind: u16, data: seq<byte>) returns (t: Tree)
    requires |data| <= 65535
    ensures Fits(t) && Kind(t) == kind && Body(t) == data
    decreases |data|, 1
  {
    match kind
    case 0 => t := Number(data);
    case 1 => t := Text(data);
    case 3 =>
      var items, rest := EveryInputIsTrees(data);
      t := Nest(false, items, rest);
    case 4 =>
      var items, rest := EveryInputIsTrees(data);
      t := Nest(true, items, rest);
    case _ => t := Other(kind, data);
  }

  // ---- Text -------------------------------------------------------------------------------

  // A text written with any number of NULs after it is read back, if it does not itself end in one.
  lemma {:induction false} WrittenTextIsRead(s: seq<scalar>, nuls: nat)
    requires s == [] || s[|s| - 1] != 0
    ensures Meaning(Text(EncodeText(s) + Zeros(nuls))) == String(s)
  {
    var padded := s + seq(nuls, i => 0);
    PaddedText(s, nuls);
    TextRoundTrip(padded);
    TrimPadded(s, nuls);
  }

  lemma {:induction false} PaddedText(s: seq<scalar>, nuls: nat)
    ensures EncodeText(s + seq(nuls, i => 0)) == EncodeText(s) + Zeros(nuls)
  {
    if nuls == 0 {
      assert s + seq(0, i => 0) == s;
    } else {
      var less: seq<scalar> := s + seq(nuls - 1, i => 0);
      assert s + seq(nuls, i => 0) == less + [0];
      PaddedText(s, nuls - 1);
      EncodeTextAppend(less, 0);
      assert Zeros(nuls) == Zeros(nuls - 1) + [0];
    }
  }

  lemma {:induction false} TrimPadded(s: seq<scalar>, nuls: nat)
    requires s == [] || s[|s| - 1] != 0
    ensures TrimNuls(s + seq(nuls, i => 0)) == s
  {
    if nuls == 0 {
      assert s + seq(0, i => 0) == s;
    } else {
      assert (s + seq(nuls, i => 0))[..|s| + nuls - 1] == s + seq(nuls - 1, i => 0);
      TrimPadded(s, nuls - 1);
    }
  }
}
