/** The statement splitter of the test DSL. `Parse` is the line-by-line loop with its buffer; the
    reference it refines joins the cleaned lines once, splits the result at every `;`, and labels
    each piece with the line of its first non-blank character. */
module ScriptParser {
  import opened Bytes

  // ---- Characters and lines ---------------------------------------------------------------

  /** Unicode White_Space, what `char::is_whitespace` tests. */
  predicate IsBlank(c: char) {
    var n := c as int;
    0x09 <= n <= 0x0D || n == 0x20 || n == 0x85 || n == 0xA0 || n == 0x1680 || 0x2000 <= n <= 0x200A
    || n == 0x2028 || n == 0x2029 || n == 0x202F || n == 0x205F || n == 0x3000
  }

  /** The position of the first `c`, or the length. */
  function Find(s: string, c: char): (k: nat)
    ensures k <= |s| && (k < |s| ==> s[k] == c) && forall i | 0 <= i < k :: s[i] != c
  {
    FindFrom(s, c, 0)
  }

  function FindFrom(s: string, c: char, from: nat): (k: nat)
    requires from <= |s|
    ensures from <= k <= |s| && (k < |s| ==> s[k] == c) && forall i | from <= i < k :: s[i] != c
    decreases |s| - from
  {
    if from == |s| || s[from] == c then from else FindFrom(s, c, from + 1)
  }

  function LeadingBlanks(s: string): (k: nat)
    ensures k <= |s| && (k < |s| ==> !IsBlank(s[k])) && forall i | 0 <= i < k :: IsBlank(s[i])
  {
    BlanksFrom(s, 0)
  }

  function BlanksFrom(s: string, from: nat): (k: nat)
    requires from <= |s|
    ensures from <= k <= |s| && (k < |s| ==> !IsBlank(s[k])) && forall i | from <= i < k :: IsBlank(s[i])
    decreases |s| - from
  {
    if from == |s| || !IsBlank(s[from]) then from else BlanksFrom(s, from + 1)
  }

  /** The length of `s[..to]` without its trailing blanks. */
  function EndBefore(s: string, to: nat): (k: nat)
    requires to <= |s|
    ensures k <= to && (k > 0 ==> !IsBlank(s[k - 1])) && forall i | k <= i < to :: IsBlank(s[i])
  {
    if to == 0 || !IsBlank(s[to - 1]) then to else EndBefore(s, to - 1)
  }

  function TrimStart(s: string): (t: string)
    ensures |t| <= |s|
  {
    s[LeadingBlanks(s)..]
  }

  function Trim(s: string): string {
    var t := TrimStart(s);
    t[..EndBefore(t, |t|)]
  }

  /** `str::lines`: split after each newline, which is dropped along with a carriage return before it. */
  function Lines(src: string): seq<string>
    decreases |src|
  {
    if src == [] then []
    else
      var k := Find(src, '\n');
      var line := if 0 < k < |src| && src[k - 1] == '\r' then src[..k - 1] else src[..k];
      [line] + (if k < |src| then Lines(src[k + 1..]) else [])
  }

  /** A line without its comment and surrounding blanks. */
  function Clean(raw: string): string {
    Trim(raw[..Find(raw, '#')])
  }

  // ---- The reference ----------------------------------------------------------------------

  /** A character with the number of the line it stands on. */
  datatype Ch = Ch(c: char, line: nat)

  datatype Statement = Statement(line: nat, text: string)

  function Text(u: seq<Ch>): (s: string)
    ensures |s| == |u| && forall i | 0 <= i < |u| :: s[i] == u[i].c
  {
    seq(|u|, i requires 0 <= i < |u| => u[i].c)
  }

  function OnLine(s: string, line: nat): (u: seq<Ch>)
    ensures |u| == |s| && Text(u) == s && forall i | 0 <= i < |u| :: u[i].line == line
  {
    seq(|s|, i requires 0 <= i < |s| => Ch(s[i], line))
  }

  /** What line number `line` adds to the joined text: a space unless it is the first, then the
      cleaned line. Lines with nothing on them add nothing. */
  function Contribution(joined: seq<Ch>, raw: string, line: nat): seq<Ch> {
    if Clean(raw) == "" then []
    else (if joined == [] then [] else [Ch(' ', line)]) + OnLine(Clean(raw), line)
  }

  /** The cleaned lines joined by spaces, from line index `k` on, after the text `joined`. */
  function JoinFrom(joined: seq<Ch>, lines: seq<string>, k: nat): seq<Ch>
    requires k <= |lines|
    decreases |lines| - k
  {
    if k == |lines| then joined
    else JoinFrom(joined + Contribution(joined, lines[k], k + 1), lines, k + 1)
  }

  function Label(u: seq<Ch>): nat
    requires LeadingBlanks(Text(u)) < |u|
  {
    u[LeadingBlanks(Text(u))].line
  }

  /** The statement of one piece: its trimmed text under the line of its first non-blank character. */
  function PieceStatement(u: seq<Ch>): seq<Statement> {
    if Trim(Text(u)) == "" || LeadingBlanks(Text(u)) == |u| then [] else [Statement(Label(u), Trim(Text(u)))]
  }

  /** The statements of all pieces that end in `;`. */
  function Statements(u: seq<Ch>): seq<Statement>
    decreases |u|
  {
    var k := Find(Text(u), ';');
    if k == |u| then [] else PieceStatement(u[..k]) + Statements(u[k + 1..])
  }

  /** What follows the last `;`. */
  function Tail(u: seq<Ch>): (t: seq<Ch>)
    ensures ';' !in Text(t)
    decreases |u|
  {
    var k := Find(Text(u), ';');
    if k == |u| then
      u
    else Tail(u[k + 1..])
  }

  datatype ParseError = StatementError(line: nat, message: string) | Unterminated(line: nat, text: string)

  /** One list of results after another; an error ends both. */
  function Join<S>(a: Result<seq<S>, ParseError>, b: Result<seq<S>, ParseError>): Result<seq<S>, ParseError> {
    if a.Err? then a else if b.Err? then b else Ok(a.value + b.value)
  }

  function EvaluateOne<S>(s: Statement, parse: (nat, string) -> Result<S, string>): Result<seq<S>, ParseError> {
    match parse(s.line, s.text)
    case Err(m) => Err(StatementError(s.line, m))
    case Ok(v) => Ok([v])
  }

  /** Every statement in order, stopping at the first that does not parse. */
  function Evaluate<S>(ss: seq<Statement>, parse: (nat, string) -> Result<S, string>): Result<seq<S>, ParseError> {
    if ss == [] then Ok([]) else Join(EvaluateOne(ss[0], parse), Evaluate(ss[1..], parse))
  }

  function Reference<S>(src: string, parse: (nat, string) -> Result<S, string>): Result<seq<S>, ParseError> {
    var u := JoinFrom([], Lines(src), 0);
    match Evaluate(Statements(u), parse)
    case Err(e) => Err(e)
    case Ok(vs) =>
      var rest := PieceStatement(Tail(u));
      if rest == [] then Ok(vs) else Err(Unterminated(rest[0].line, rest[0].text))
  }

  // ---- Facts about splitting --------------------------------------------------------------

  // Splitting is incremental: what comes later only continues the unfinished tail.
  lemma {:induction false} SplitAppend(u: seq<Ch>, x: seq<Ch>)
    ensures Statements(u + x) == Statements(u) + Statements(Tail(u) + x)
    ensures Tail(u + x) == Tail(Tail(u) + x)
    decreases |u|
  {
    hide Statements;
    hide Tail;
    hide PieceStatement;
    var k := Find(Text(u), ';');
    if k == |u| {
      NothingFinished(u);
      assert [] + Statements(u + x) == Statements(u + x);
    } else {
      var rest := u[k + 1..];
      FindPrefix(u, x, k);
      assert (u + x)[..k] == u[..k] && (u + x)[k + 1..] == rest + x;
      SplitAtFirst(u, k);
      SplitAtFirst(u + x, k);
      SplitAppend(rest, x);
      AppendTwice(PieceStatement(u[..k]), Statements(rest), Statements(Tail(rest) + x));
    }
  }

  lemma NothingFinished(u: seq<Ch>)
    requires Find(Text(u), ';') == |u|
    ensures Statements(u) == [] && Tail(u) == u
  {
  }

  lemma SplitAtFirst(u: seq<Ch>, k: nat)
    requires k < |u| && k == Find(Text(u), ';')
    ensures Statements(u) == PieceStatement(u[..k]) + Statements(u[k + 1..]) && Tail(u) == Tail(u[k + 1..])
  {
  }

  lemma FindPrefix(u: seq<Ch>, x: seq<Ch>, k: nat)
    requires k < |u| && k == Find(Text(u), ';')
    ensures Find(Text(u + x), ';') == k
  {
    FindIs(Text(u + x), ';', k);
  }

  lemma {:induction false} FindIs(s: string, c: char, k: nat)
    requires k < |s| && s[k] == c && forall i | 0 <= i < k :: s[i] != c
    ensures Find(s, c) == k
  {
  }

  lemma LeadingIs(s: string, k: nat)
    requires k <= |s| && (k < |s| ==> !IsBlank(s[k])) && forall i | 0 <= i < k :: IsBlank(s[i])
    ensures LeadingBlanks(s) == k
  {
  }

  lemma AppendTwice<S>(a: seq<S>, b: seq<S>, c: seq<S>)
    ensures a + (b + c) == (a + b) + c && (c == [] ==> a + b == a + (b + c))
  {
  }

  // The statements of the lines so far are the first statements of the whole source.
  lemma {:induction false} StatementsPrefix(joined: seq<Ch>, lines: seq<string>, k: nat)
    requires k <= |lines|
    ensures Statements(joined) <= Statements(JoinFrom(joined, lines, k))
    decreases |lines| - k
  {
    if k < |lines| {
      var x := Contribution(joined, lines[k], k + 1);
      StatementsPrefix(joined + x, lines, k + 1);
      SplitAppend(joined, x);
    }
  }

  lemma {:induction false} EvaluateAppend<S>(a: seq<Statement>, b: seq<Statement>, parse: (nat, string) -> Result<S, string>)
    ensures Evaluate(a + b, parse) == Join(Evaluate(a, parse), Evaluate(b, parse))
  {
    if a == [] {
      assert a + b == b;
      JoinNothing(Evaluate(b, parse));
    } else {
      assert (a + b)[1..] == a[1..] + b;
      EvaluateAppend(a[1..], b, parse);
      JoinAssociates(EvaluateOne(a[0], parse), Evaluate(a[1..], parse), Evaluate(b, parse));
    }
  }

  lemma JoinNothing<S>(r: Result<seq<S>, ParseError>)
    ensures Join(Ok([]), r) == r && Join(r, Ok([])) == r
  {
    if r.Ok? {
      assert [] + r.value == r.value && r.value + [] == r.value;
    }
  }

  lemma JoinAssociates<S>(a: Result<seq<S>, ParseError>, b: Result<seq<S>, ParseError>, c: Result<seq<S>, ParseError>)
    ensures Join(a, Join(b, c)) == Join(Join(a, b), c)
  {
    if a.Ok? && b.Ok? && c.Ok? {
      assert a.value + (b.value + c.value) == a.value + b.value + c.value;
    }
  }

  // ---- The loop ---------------------------------------------------------------------------

  /** The buffer holds the unfinished text `u` without its leading blanks, and the start line is
      that of its first character. */
  ghost predicate Buffered(buf: string, startLine: nat, u: seq<Ch>) {
    && buf == TrimStart(Text(u))
    && (buf != "" ==> startLine == Label(u))
  }

  // Adding a cleaned line to the buffer is adding its contribution to the unfinished text.
  lemma AppendLine(buf: string, startLine: nat, u: seq<Ch>, line: string, lineno: nat, sep: seq<Ch>)
    requires Buffered(buf, startLine, u) && line != "" && !IsBlank(line[0])
    requires sep == [Ch(' ', lineno)] || (sep == [] && u == [])
    ensures Buffered(if buf == "" then line else buf + " " + line, if buf == "" then lineno else startLine,
                     u + sep + OnLine(line, lineno))
  {
    var x := OnLine(line, lineno);
    var v := u + sep + x;
    var k := LeadingBlanks(Text(u));
    if buf == "" {
      assert k == |u|;
      LeadingIs(Text(v), |u| + |sep|);
      assert Text(v)[|u| + |sep|..] == line;
    } else {
      LeadingIs(Text(v), k);
      assert Text(v)[k..] == buf + " " + line;
    }
  }

  // Cutting the buffer at its first `;` cuts the unfinished text at its first `;`.
  lemma CutStatement(buf: string, startLine: nat, u: seq<Ch>, lead: nat, semi: nat)
    requires lead < |u| && buf == Text(u)[lead..] && semi == Find(buf, ';') < |buf|
    requires !IsBlank(buf[0]) && startLine == u[lead].line && forall i | 0 <= i < lead :: IsBlank(u[i].c)
    ensures var k := lead + semi;
            && k < |u| && k == Find(Text(u), ';')
            && Text(u[k + 1..]) == buf[semi + 1..]
            && PieceStatement(u[..k]) == if Trim(buf[..semi]) == "" then [] else [Statement(startLine, Trim(buf[..semi]))]
  {
    Offsets(Text(u), lead, buf, semi);
    assert Text(u[lead + semi + 1..]) == Text(u)[lead + semi + 1..];
    var piece := u[..lead + semi];
    assert Text(piece) == Text(u)[..lead + semi];
    PieceIs(piece, lead, buf[..semi]);
  }

  // Where the buffer's first `;` and its two sides are in the unfinished text.
  lemma Offsets(text: string, lead: nat, buf: string, semi: nat)
    requires lead <= |text| && buf == text[lead..] && semi == Find(buf, ';') < |buf|
    requires forall i | 0 <= i < lead :: IsBlank(text[i])
    ensures lead + semi < |text| && Find(text, ';') == lead + semi
    ensures text[..lead + semi][lead..] == buf[..semi] && text[lead + semi + 1..] == buf[semi + 1..]
  {
    forall i | 0 <= i < lead + semi
      ensures text[i] != ';'
    {
      if lead <= i { assert buf[i - lead] != ';'; }
    }
    FindIs(text, ';', lead + semi);
  }

  // The statement of a piece that is `lead` blanks followed by `t`.
  lemma PieceIs(piece: seq<Ch>, lead: nat, t: string)
    requires lead <= |piece| && Text(piece)[lead..] == t && forall i | 0 <= i < lead :: IsBlank(piece[i].c)
    requires t != "" ==> !IsBlank(t[0])
    ensures PieceStatement(piece) == if Trim(t) == "" then [] else [Statement(piece[lead].line, Trim(t))]
  {
    LeadingIs(Text(piece), lead);
    LeadingIs(t, 0);
    assert TrimStart(t) == t;
    assert TrimStart(Text(piece)) == t;
  }

  /** The inner loop: take every finished statement off the buffer. The buffer's first `m`
      characters came from earlier lines and hold no `;`; the rest came from line `lineno`. */
  method Drain<S>(buf0: string, startLine0: nat, lineno: nat, parse: (nat, string) -> Result<S, string>, out0: seq<S>,
                  ghost u0: seq<Ch>, ghost m0: nat)
    returns (buf: string, startLine: nat, out: seq<S>, failure: Option<ParseError>)
    requires Buffered(buf0, startLine0, u0) && FromLine(u0, m0, lineno)
    ensures failure.Some? ==> Evaluate(Statements(u0), parse) == Err(failure.value)
    ensures failure.None? ==>
              && Buffered(buf, startLine, Tail(u0))
              && Evaluate(Statements(u0), parse).Ok? && out == out0 + Evaluate(Statements(u0), parse).value
  {
    buf, startLine, out := buf0, startLine0, out0;
    ghost var u, m, done, values := u0, m0, [], [];
    assert Draining(buf, startLine, lineno, u0, u, m, done);
    assert Evaluate(done, parse) == Ok(values) && out0 + values == out0;
    hide *;
    while true
      invariant Draining(buf, startLine, lineno, u0, u, m, done)
      invariant Evaluate(done, parse) == Ok(values) && out == out0 + values
      decreases |buf|
    {
      var semi := Find(buf, ';');
      if semi == |buf| {
        DrainEnds(buf, startLine, lineno, u0, u, m, done);
        return buf, startLine, out, None;
      }
      var text := Trim(buf[..semi]);
      ghost var taken: seq<S> := [];
      if text != "" {
        var r := parse(startLine, text);
        if r.Err? {
          DrainFails(buf, startLine, lineno, u0, u, m, done, semi, r.error, parse);
          return buf, startLine, out, Some(StatementError(startLine, r.error));
        }
        out, taken := out + [r.value], [r.value];
      }
      AppendTwice(out0, values, taken);
      u, done := DrainRound(buf, startLine, lineno, u0, u, m, done, semi, parse, values, taken);
      values := values + taken;
      buf, startLine, m := TrimStart(buf[semi + 1..]), lineno, 0;
    }
  }

  lemma DrainRound<S>(buf: string, startLine: nat, lineno: nat, u0: seq<Ch>, u: seq<Ch>, m: nat, done: seq<Statement>,
                      semi: nat, parse: (nat, string) -> Result<S, string>, values: seq<S>, taken: seq<S>)
    returns (rest: seq<Ch>, more: seq<Statement>)
    requires Draining(buf, startLine, lineno, u0, u, m, done) && semi == Find(buf, ';') < |buf|
    requires Evaluate(done, parse) == Ok(values)
    requires var text := Trim(buf[..semi]);
             if text == "" then taken == [] else |taken| == 1 && parse(startLine, text) == Ok(taken[0])
    ensures Draining(TrimStart(buf[semi + 1..]), lineno, lineno, u0, rest, 0, more)
    ensures Evaluate(more, parse) == Ok(values + taken)
  {
    hide Draining;
    hide Evaluate;
    hide Find;
    hide Trim;
    var text := Trim(buf[..semi]);
    rest := DrainStep(buf, startLine, lineno, u0, u, m, done, semi);
    more := done + StatementIn(startLine, text);
    if text == "" {
      assert more == done && values + taken == values;
    } else {
      assert taken == [taken[0]];
      OneMore(done, Statement(startLine, text), taken[0], values, parse);
    }
  }

  function StatementIn(line: nat, text: string): seq<Statement> {
    if text == "" then [] else [Statement(line, text)]
  }

  lemma DrainEnds(buf: string, startLine: nat, lineno: nat, u0: seq<Ch>, u: seq<Ch>, m: nat, done: seq<Statement>)
    requires Draining(buf, startLine, lineno, u0, u, m, done) && Find(buf, ';') == |buf|
    ensures Statements(u0) == done && Buffered(buf, startLine, Tail(u0))
  {
    NothingToCut(buf, startLine, u);
    assert done + [] == done;
  }

  lemma DrainFails<S>(buf: string, startLine: nat, lineno: nat, u0: seq<Ch>, u: seq<Ch>, m: nat, done: seq<Statement>,
                      semi: nat, message: string, parse: (nat, string) -> Result<S, string>)
    requires Draining(buf, startLine, lineno, u0, u, m, done) && semi == Find(buf, ';') < |buf|
    requires Evaluate(done, parse).Ok? && Trim(buf[..semi]) != "" && parse(startLine, Trim(buf[..semi])) == Err(message)
    ensures Evaluate(Statements(u0), parse) == Err(StatementError(startLine, message))
  {
    var rest := DrainStep(buf, startLine, lineno, u0, u, m, done, semi);
    FailsAt(done, Statement(startLine, Trim(buf[..semi])), Statements(rest), message, parse);
  }

  /** Part-way through the inner loop: the statements of `u0` are those `done` and those of `u`. */
  ghost predicate Draining(buf: string, startLine: nat, lineno: nat, u0: seq<Ch>, u: seq<Ch>, m: nat, done: seq<Statement>) {
    && Buffered(buf, startLine, u) && FromLine(u, m, lineno)
    && Statements(u0) == done + Statements(u) && Tail(u0) == Tail(u)
  }

  lemma DrainStep(buf: string, startLine: nat, lineno: nat, u0: seq<Ch>, u: seq<Ch>, m: nat, done: seq<Statement>, semi: nat)
    returns (rest: seq<Ch>)
    requires Draining(buf, startLine, lineno, u0, u, m, done) && semi == Find(buf, ';') < |buf|
    ensures var text := Trim(buf[..semi]);
            var piece := StatementIn(startLine, text);
            && Statements(u0) == done + piece + Statements(rest)
            && Draining(TrimStart(buf[semi + 1..]), lineno, lineno, u0, rest, 0, done + piece)
  {
    hide Buffered;
    hide FromLine;
    hide Find;
    hide Trim;
    hide Statements;
    hide Tail;
    hide PieceStatement;
    var k := CutBuffered(buf, startLine, u, semi);
    rest := u[k + 1..];
    CutLabel(u, m, k, lineno);
    SplitAtFirst(u, k);
    AppendTwice(done, PieceStatement(u[..k]), Statements(rest));
  }

  lemma CutBuffered(buf: string, startLine: nat, u: seq<Ch>, semi: nat) returns (k: nat)
    requires Buffered(buf, startLine, u) && semi == Find(buf, ';') < |buf|
    ensures k < |u| && k == Find(Text(u), ';') && u[k].c == ';'
    ensures Text(u[k + 1..]) == buf[semi + 1..]
    ensures PieceStatement(u[..k]) == StatementIn(startLine, Trim(buf[..semi]))
  {
    hide Trim;
    hide PieceStatement;
    hide Find;
    var lead := LeadingBlanks(Text(u));
    CutStatement(buf, startLine, u, lead, semi);
    k := lead + semi;
    assert Text(u)[k] == ';';
  }

  /** Past its first `m` characters, which hold no `;`, everything in `u` stands on line `lineno`. */
  ghost predicate FromLine(u: seq<Ch>, m: nat, lineno: nat) {
    && m <= |u| && (forall i | 0 <= i < m :: u[i].c != ';')
    && forall i | m <= i < |u| :: u[i].line == lineno
  }

  lemma CutLabel(u: seq<Ch>, m: nat, k: nat, lineno: nat)
    requires FromLine(u, m, lineno) && k < |u| && u[k].c == ';'
    ensures FromLine(u[k + 1..], 0, lineno)
    ensures Buffered(TrimStart(Text(u[k + 1..])), lineno, u[k + 1..])
  {
  }

  lemma NothingToCut(buf: string, startLine: nat, u: seq<Ch>)
    requires Buffered(buf, startLine, u) && Find(buf, ';') == |buf|
    ensures Statements(u) == [] && Tail(u) == u
  {
    var text := Text(u);
    var lead := LeadingBlanks(text);
    forall i | 0 <= i < |text|
      ensures text[i] != ';'
    {
      if lead <= i { assert buf[i - lead] != ';'; }
    }
  }

  lemma FailsAt<S>(done: seq<Statement>, s: Statement, rest: seq<Statement>, m: string, parse: (nat, string) -> Result<S, string>)
    requires Evaluate(done, parse).Ok? && parse(s.line, s.text) == Err(m)
    ensures Evaluate(done + [s] + rest, parse) == Err(StatementError(s.line, m))
  {
    assert done + [s] + rest == done + ([s] + rest);
    assert ([s] + rest)[0] == s;
    EvaluateAppend(done, [s] + rest, parse);
  }

  lemma OneMore<S>(done: seq<Statement>, s: Statement, value: S, values: seq<S>, parse: (nat, string) -> Result<S, string>)
    requires Evaluate(done, parse) == Ok(values) && parse(s.line, s.text) == Ok(value)
    ensures Evaluate(done + [s], parse) == Ok(values + [value])
  {
    assert [s][1..] == [];
    JoinNothing(EvaluateOne(s, parse));
    EvaluateAppend(done, [s], parse);
  }

  /** One round of the line loop: clean the line, add it to the buffer, drain the buffer. */
  method TakeLine<S>(raw: string, lineno: nat, buf0: string, startLine0: nat, out0: seq<S>,
                     parse: (nat, string) -> Result<S, string>, ghost joined: seq<Ch>)
    returns (buf: string, startLine: nat, out: seq<S>, failure: Option<ParseError>)
    requires Evaluate(Statements(joined), parse) == Ok(out0) && Buffered(buf0, startLine0, Tail(joined))
    ensures var u := joined + Contribution(joined, raw, lineno);
            && (failure.Some? ==> Evaluate(Statements(u), parse) == Err(failure.value))
            && (failure.None? ==> Evaluate(Statements(u), parse) == Ok(out) && Buffered(buf, startLine, Tail(u)))
  {
    buf, startLine, out, failure := buf0, startLine0, out0, None;
    var line := Trim(raw[..Find(raw, '#')]);
    ghost var x := Contribution(joined, raw, lineno);
    if line == "" {
      assert joined + x == joined;
      return;
    }
    ghost var m := NextLine(buf, startLine, joined, raw, lineno);
    if buf == "" {
      startLine, buf := lineno, line;
    } else {
      buf := buf + " " + line;
    }
    SplitAppend(joined, x);
    buf, startLine, out, failure := Drain(buf, startLine, lineno, parse, out, Tail(joined) + x, m);
    EvaluateAppend(Statements(joined), Statements(Tail(joined) + x), parse);
  }

  /** `parse`: the line loop. It yields exactly what the reference yields, errors included. */
  method Parse<S>(src: string, parse: (nat, string) -> Result<S, string>) returns (r: Result<seq<S>, ParseError>)
    ensures r == Reference(src, parse)
  {
    var lines := Lines(src);
    var out: seq<S>, buf: string, startLine: nat := [], "", 0;
    ghost var joined: seq<Ch> := [];
    for idx := 0 to |lines|
      invariant JoinFrom(joined, lines, idx) == JoinFrom([], lines, 0)
      invariant Evaluate(Statements(joined), parse) == Ok(out)
      invariant Buffered(buf, startLine, Tail(joined))
    {
      var failure;
      buf, startLine, out, failure := TakeLine(lines[idx], idx + 1, buf, startLine, out, parse, joined);
      joined := joined + Contribution(joined, lines[idx], idx + 1);
      if failure.Some? {
        FailureStands(joined, lines, idx + 1, parse);
        return Err(failure.value);
      }
    }
    TailStatement(buf, startLine, Tail(joined));
    var tail := Trim(buf);
    if tail != "" {
      return Err(Unterminated(startLine, tail));
    }
    return Ok(out);
  }

  // A line with text on it continues the buffered text by its contribution.
  lemma NextLine(buf: string, startLine: nat, joined: seq<Ch>, raw: string, lineno: nat) returns (m: nat)
    requires Buffered(buf, startLine, Tail(joined)) && Clean(raw) != ""
    ensures var u := Tail(joined) + Contribution(joined, raw, lineno);
            && Buffered(if buf == "" then Clean(raw) else buf + " " + Clean(raw), if buf == "" then lineno else startLine, u)
            && FromLine(u, m, lineno)
  {
    var line, pending, sep := Clean(raw), Tail(joined), if joined == [] then [] else [Ch(' ', lineno)];
    assert Contribution(joined, raw, lineno) == sep + OnLine(line, lineno);
    assert sep == [] ==> pending == [];
    assert line == Trim(raw[..Find(raw, '#')]);
    hide *;
    TrimmedStart(raw[..Find(raw, '#')]);
    AppendLine(buf, startLine, pending, line, lineno, sep);
    Unfinished(pending, sep, line, lineno);
    AppendTwice(pending, sep, OnLine(line, lineno));
    m := |pending + sep|;
  }

  lemma TrimmedStart(s: string)
    ensures Trim(s) != "" ==> !IsBlank(Trim(s)[0])
  {
  }

  lemma Unfinished(pending: seq<Ch>, sep: seq<Ch>, line: string, lineno: nat)
    requires ';' !in Text(pending) && (sep == [] || sep == [Ch(' ', lineno)])
    ensures FromLine(pending + sep + OnLine(line, lineno), |pending + sep|, lineno)
  {
    var text := Text(pending);
    assert forall i | 0 <= i < |pending| :: text[i] in text;
  }

  lemma FailureStands<S>(joined: seq<Ch>, lines: seq<string>, k: nat, parse: (nat, string) -> Result<S, string>)
    requires k <= |lines| && Evaluate(Statements(joined), parse).Err?
    ensures Evaluate(Statements(JoinFrom(joined, lines, k)), parse) == Evaluate(Statements(joined), parse)
  {
    StatementsPrefix(joined, lines, k);
    var all, some := Statements(JoinFrom(joined, lines, k)), Statements(joined);
    PrefixSplits(some, all);
    EvaluateAppend(some, all[|some|..], parse);
  }

  lemma PrefixSplits(some: seq<Statement>, all: seq<Statement>)
    requires some <= all
    ensures all == some + all[|some|..]
  {
  }

  lemma TailStatement(buf: string, startLine: nat, u: seq<Ch>)
    requires Buffered(buf, startLine, u)
    ensures PieceStatement(u) == if Trim(buf) == "" then [] else [Statement(startLine, Trim(buf))]
  {
    PieceIs(u, LeadingBlanks(Text(u)), buf);
  }
}
