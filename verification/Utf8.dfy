/** UTF-8 as strings are written and as `String::from_utf8_lossy` reads them: every maximal part of
    an ill-formed sequence becomes one replacement character. */
module Utf8 {
  import opened Bytes

  /** A Unicode scalar value. */
  type scalar = x: int | 0 <= x < 0x11_0000 && !(0xD800 <= x < 0xE000)

  const REPLACEMENT: scalar := 0xFFFD

  function EncodeScalar(c: scalar): (b: seq<byte>)
    ensures 1 <= |b| <= 4
  {
    if c < 0x80 then [c]
    else if c < 0x800 then [0xC0 + c / 0x40, 0x80 + c % 0x40]
    else if c < 0x1_0000 then [0xE0 + c / 0x1000, 0x80 + (c / 0x40) % 0x40, 0x80 + c % 0x40]
    else [0xF0 + c / 0x4_0000, 0x80 + (c / 0x1000) % 0x40, 0x80 + (c / 0x40) % 0x40, 0x80 + c % 0x40]
  }

  function EncodeText(s: seq<scalar>): seq<byte> {
    if s == [] then [] else EncodeScalar(s[0]) + EncodeText(s[1..])
  }

  // ---- Lossy decoding ---------------------------------------------------------------------

  /** The length of the sequence a byte starts, 0 if it starts none. */
  function Width(first: byte): nat {
    if first < 0x80 then 1
    else if 0xC2 <= first < 0xE0 then 2
    else if 0xE0 <= first < 0xF0 then 3
    else if 0xF0 <= first < 0xF5 then 4
    else 0
  }

  predicate IsContinuation(b: byte) {
    0x80 <= b < 0xC0
  }

  /** The second bytes that neither spell a value too long nor leave the scalar values. */
  predicate MayFollow(first: byte, second: byte) {
    && IsContinuation(second)
    && (first == 0xE0 ==> second >= 0xA0) && (first == 0xED ==> second < 0xA0)
    && (first == 0xF0 ==> second >= 0x90) && (first == 0xF4 ==> second < 0x90)
  }

  /** The first character and the bytes it takes; an ill-formed start takes its longest part that
      could have begun a character. */
  function First(b: seq<byte>): (r: (scalar, nat))
    requires b != []
    ensures 1 <= r.1 <= |b|
  {
    var w := Width(b[0]);
    if w == 0 then (REPLACEMENT, 1)
    else if w == 1 then (b[0], 1)
    else if |b| < 2 || !MayFollow(b[0], b[1]) then (REPLACEMENT, 1)
    else if w == 2 then ((b[0] as int - 0xC0) * 0x40 + (b[1] as int - 0x80), 2)
    else if |b| < 3 || !IsContinuation(b[2]) then (REPLACEMENT, 2)
    else if w == 3 then ((b[0] as int - 0xE0) * 0x1000 + (b[1] as int - 0x80) * 0x40 + (b[2] as int - 0x80), 3)
    else if |b| < 4 || !IsContinuation(b[3]) then (REPLACEMENT, 3)
    else ((b[0] as int - 0xF0) * 0x4_0000 + (b[1] as int - 0x80) * 0x1000 + (b[2] as int - 0x80) * 0x40 + (b[3] as int - 0x80), 4)
  }

  function DecodeLossy(b: seq<byte>): seq<scalar> {
    if b == [] then [] else [First(b).0] + DecodeLossy(b[First(b).1..])
  }

  // ---- Round trip -------------------------------------------------------------------------

  // Base-64 digits put together again.
  lemma Digits(c: nat)
    ensures c == (c / 0x40) * 0x40 + c % 0x40
    ensures c / 0x40 / 0x40 == c / 0x1000 && c / 0x1000 / 0x40 == c / 0x4_0000
    ensures c / 0x40 == (c / 0x1000) * 0x40 + (c / 0x40) % 0x40
    ensures c / 0x1000 == (c / 0x4_0000) * 0x40 + (c / 0x1000) % 0x40
  {
  }

  lemma FirstOfEncoded(c: scalar, more: seq<byte>)
    ensures First(EncodeScalar(c) + more) == (c, |EncodeScalar(c)|)
  {
    var e := EncodeScalar(c);
    var b := e + more;
    assert forall i | 0 <= i < |e| :: b[i] == e[i];
    if 0x80 <= c < 0x800 {
      TwoBytes(c, b);
    } else if 0x800 <= c < 0x1_0000 {
      ThreeBytes(c, b);
    } else if c >= 0x1_0000 {
      FourBytes(c, b);
    }
  }

  lemma TwoBytes(c: scalar, b: seq<byte>)
    requires 0x80 <= c < 0x800 && |b| >= 2 && b[0] == 0xC0 + c / 0x40 && b[1] == 0x80 + c % 0x40
    ensures First(b) == (c, 2)
  {
    Digits(c);
  }

  lemma ThreeBytes(c: scalar, b: seq<byte>)
    requires 0x800 <= c < 0x1_0000 && |b| >= 3 && b[0] == 0xE0 + c / 0x1000
    requires b[1] == 0x80 + (c / 0x40) % 0x40 && b[2] == 0x80 + c % 0x40
    ensures First(b) == (c, 3)
  {
    Digits(c);
  }

  lemma FourBytes(c: scalar, b: seq<byte>)
    requires 0x1_0000 <= c && |b| >= 4 && b[0] == 0xF0 + c / 0x4_0000
    requires b[1] == 0x80 + (c / 0x1000) % 0x40 && b[2] == 0x80 + (c / 0x40) % 0x40 && b[3] == 0x80 + c % 0x40
    ensures First(b) == (c, 4)
  {
    Digits(c);
  }

  lemma {:induction false} TextRoundTrip(s: seq<scalar>)
    ensures DecodeLossy(EncodeText(s)) == s
  {
    if s != [] {
      var e, more := EncodeScalar(s[0]), EncodeText(s[1..]);
      FirstOfEncoded(s[0], more);
      assert (e + more)[|e|..] == more;
      TextRoundTrip(s[1..]);
      assert s == [s[0]] + s[1..];
    }
  }

  // Reading loses nothing exactly from well-formed bytes.
  lemma LossyIsExactOnText(b: seq<byte>)
    ensures EncodeText(DecodeLossy(b)) == b <==> exists s :: EncodeText(s) == b
  {
    if exists s :: EncodeText(s) == b {
      var s :| EncodeText(s) == b;
      TextRoundTrip(s);
    }
  }

  lemma {:induction false} EncodeTextAppend(s: seq<scalar>, c: scalar)
    ensures EncodeText(s + [c]) == EncodeText(s) + EncodeScalar(c)
  {
    if s == [] {
      assert s + [c] == [c] && [c][1..] == [];
    } else {
      assert (s + [c])[1..] == s[1..] + [c];
      EncodeTextAppend(s[1..], c);
      assert EncodeScalar(s[0]) + (EncodeText(s[1..]) + EncodeScalar(c)) == EncodeText(s) + EncodeScalar(c);
    }
  }

  // ---- Ill-formed bytes -------------------------------------------------------------------

  // The shape of every well-formed sequence.
  lemma EncodedShape(c: scalar)
    ensures var e := EncodeScalar(c);
            && |e| == Width(e[0]) && (|e| >= 2 ==> MayFollow(e[0], e[1]))
            && (|e| >= 3 ==> IsContinuation(e[2])) && (|e| >= 4 ==> IsContinuation(e[3]))
  {
    Digits(c);
  }

  // And every sequence of that shape is well-formed.
  lemma ShapeEncodes(e: seq<byte>) returns (c: scalar)
    requires e != [] && |e| == Width(e[0]) && (|e| >= 2 ==> MayFollow(e[0], e[1]))
    requires (|e| >= 3 ==> IsContinuation(e[2])) && (|e| >= 4 ==> IsContinuation(e[3]))
    ensures EncodeScalar(c) == e
  {
    c := First(e).0;
    if |e| == 2 {
      Rebuild(0, 0, e[0] - 0xC0, e[1] - 0x80);
    } else if |e| == 3 {
      Rebuild(0, e[0] - 0xE0, e[1] - 0x80, e[2] - 0x80);
    } else if |e| == 4 {
      Rebuild(e[0] - 0xF0, e[1] - 0x80, e[2] - 0x80, e[3] - 0x80);
    }
  }

  // Base-64 digits taken apart again.
  lemma Rebuild(p: nat, q: nat, r: nat, s: nat)
    requires q < 0x40 && r < 0x40 && s < 0x40
    ensures var c := p * 0x4_0000 + q * 0x1000 + r * 0x40 + s;
            c % 0x40 == s && (c / 0x40) % 0x40 == r && (c / 0x1000) % 0x40 == q && c / 0x4_0000 == p
  {
    var a := p * 0x40 + q;
    var c := p * 0x4_0000 + q * 0x1000 + r * 0x40 + s;
    LastDigit(p, q);
    LastDigit(a, r);
    LastDigit(a * 0x40 + r, s);
    Digits(c);
    assert c == (a * 0x40 + r) * 0x40 + s;
  }

  lemma LastDigit(high: nat, low: nat)
    requires low < 0x40
    ensures (high * 0x40 + low) / 0x40 == high && (high * 0x40 + low) % 0x40 == low
  {
  }

  /** Some character's encoding begins with these bytes. */
  ghost predicate BeginsCharacter(b: seq<byte>) {
    exists c: scalar :: b <= EncodeScalar(c)
  }

  // Reading replaces exactly the maximal subparts of section 3.9 of the Unicode Standard: where a
  // character is encoded it is read; elsewhere one replacement stands for the longest beginning of
  // a character, or for a single byte that begins none.
  lemma ReplacedIsMaximal(b: seq<byte>)
    requires b != []
    ensures forall c: scalar | EncodeScalar(c) <= b :: First(b) == (c, |EncodeScalar(c)|)
    ensures (forall c: scalar :: !(EncodeScalar(c) <= b)) ==>
              && First(b).0 == 0xFFFD
              && (First(b).1 > 1 ==> BeginsCharacter(b[..First(b).1]))
              && forall m | First(b).1 < m <= |b| :: !BeginsCharacter(b[..m])
  {
    forall c: scalar | EncodeScalar(c) <= b ensures First(b) == (c, |EncodeScalar(c)|) {
      assert b == EncodeScalar(c) + b[|EncodeScalar(c)|..];
      FirstOfEncoded(c, b[|EncodeScalar(c)|..]);
    }
    if forall c: scalar :: !(EncodeScalar(c) <= b) {
      NotEncoded(b);
      forall m | First(b).1 < m <= |b| ensures !BeginsCharacter(b[..m]) {
        if BeginsCharacter(b[..m]) {
          var c: scalar :| b[..m] <= EncodeScalar(c);
          BeginningIsTaken(b, m, c);
          assert false;
        }
      }
    }
  }

  // A beginning of a character that is not all there is taken whole.
  lemma BeginningIsTaken(b: seq<byte>, m: nat, c: scalar)
    requires b != [] && 0 < m <= |b| && b[..m] <= EncodeScalar(c)
    ensures First(b).1 >= m
  {
    EncodedShape(c);
    var e := EncodeScalar(c);
    assert forall i | 0 <= i < m :: e[i] == b[..m][i] == b[i];
  }

  predicate Shaped(b: seq<byte>) {
    && b != [] && 0 < Width(b[0]) <= |b| && (Width(b[0]) >= 2 ==> MayFollow(b[0], b[1]))
    && (Width(b[0]) >= 3 ==> IsContinuation(b[2])) && (Width(b[0]) >= 4 ==> IsContinuation(b[3]))
  }

  lemma ShapedIsEncoded(b: seq<byte>) returns (c: scalar)
    requires Shaped(b)
    ensures EncodeScalar(c) <= b
  {
    c := ShapeEncodes(b[..Width(b[0])]);
  }

  // Where no character is encoded the replacement is returned, for a beginning of a character.
  lemma NotEncoded(b: seq<byte>)
    requires b != [] && forall c: scalar :: !(EncodeScalar(c) <= b)
    ensures First(b).0 == 0xFFFD && (First(b).1 > 1 ==> BeginsCharacter(b[..First(b).1]))
  {
    var w, n := Width(b[0]), First(b).1;
    if Shaped(b) {
      var c := ShapedIsEncoded(b);
      assert false;
    } else if n == 2 {
      var c := ShapeEncodes(if w == 3 then [b[0], b[1], 0x80] else [b[0], b[1], 0x80, 0x80]);
      assert b[..2] <= EncodeScalar(c);
    } else if n == 3 {
      var c := ShapeEncodes([b[0], b[1], b[2], 0x80]);
      assert b[..3] <= EncodeScalar(c);
    }
  }
}
