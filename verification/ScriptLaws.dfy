/** What the reference of the script parser means, on characters: which text a line contributes and
    under which number, what each `;` finishes, and which result each source has. */
module ScriptLaws {
  import opened Bytes
  import opened ScriptParser

  // ---- Trimming ---------------------------------------------------------------------------

  // The 25 characters with the Unicode property White_Space.
  lemma BlanksAreWhiteSpace(c: char)
    ensures IsBlank(c) <==>
              c as int in {0x09, 0x0A, 0x0B, 0x0C, 0x0D, 0x20, 0x85, 0xA0, 0x1680,
                           0x2000, 0x2001, 0x2002, 0x2003, 0x2004, 0x2005, 0x2006, 0x2007, 0x2008, 0x2009, 0x200A,
                           0x2028, 0x2029, 0x202F, 0x205F, 0x3000}
  {
  }

  ghost predicate AllBlank(s: string) {
    forall i | 0 <= i < |s| :: IsBlank(s[i])
  }

  /** `t` is empty or begins and ends with a character that is not blank. */
  ghost predicate Solid(t: string) {
    t != "" ==> !IsBlank(t[0]) && !IsBlank(t[|t| - 1])
  }

  /** `t` is `s` without its blanks at either end. */
  ghost predicate TrimmedTo(s: string, t: string) {
    exists i, j | 0 <= i <= j <= |s| :: AllBlank(s[..i]) && t == s[i..j] && AllBlank(s[j..]) && Solid(t)
  }

  lemma TrimIsExact(s: string, t: string)
    ensures Trim(s) == t <==> TrimmedTo(s, t)
  {
    hide AllBlank;
    hide Trim;
    TrimTrims(s);
    if TrimmedTo(s, t) {
      var i, j :| 0 <= i <= j <= |s| && AllBlank(s[..i]) && t == s[i..j] && AllBlank(s[j..]) && Solid(t);
      if t == "" {
        BlankTrims(s, i);
      } else {
        SolidTrims(s, i, j);
      }
    }
  }

  lemma TrimTrims(s: string)
    ensures TrimmedTo(s, Trim(s))
  {
    var i := LeadingBlanks(s);
    var t := s[i..];
    var n := EndBefore(t, |t|);
    assert Trim(s) == s[i..i + n];
    var after := s[i + n..];
    assert forall k | 0 <= k < |after| :: after[k] == t[n + k];
  }

  lemma BlankTrims(s: string, i: nat)
    requires i <= |s| && AllBlank(s[..i]) && AllBlank(s[i..])
    ensures Trim(s) == ""
  {
    forall k | 0 <= k < |s| ensures IsBlank(s[k]) {
      if k < i { assert s[..i][k] == s[k]; } else { assert s[i..][k - i] == s[k]; }
    }
    LeadingIs(s, |s|);
  }

  lemma SolidTrims(s: string, i: nat, j: nat)
    requires i < j <= |s| && AllBlank(s[..i]) && AllBlank(s[j..]) && Solid(s[i..j])
    ensures Trim(s) == s[i..j]
  {
    assert s[i..j][0] == s[i] && s[i..j][j - i - 1] == s[j - 1];
    assert forall k | 0 <= k < i :: s[..i][k] == s[k];
    LeadingIs(s, i);
    var t := s[i..];
    var n := EndBefore(t, |t|);
    var after := s[j..];
    assert forall k | j - i <= k < |t| :: t[k] == after[k - (j - i)];
    assert t[j - i - 1] == s[j - 1];
    assert n == j - i;
  }

  // What counts of a line is the trimmed text before its first `#`.
  lemma CleanIsExact(code: string, comment: string, t: string)
    requires '#' !in code && (comment == "" || comment[0] == '#')
    ensures Clean(code + comment) == t <==> TrimmedTo(code, t)
  {
    var raw := code + comment;
    assert raw[..|code|] == code;
    if comment == "" {
      assert Find(raw, '#') == |code|;
    } else {
      assert raw[|code|] == '#';
      FindIs(raw, '#', |code|);
    }
    TrimIsExact(code, t);
  }

  // A line ends at its newline, and a carriage return before that newline is dropped with it.
  lemma LinesStep(line: string, rest: string)
    requires '\n' !in line
    ensures Lines(line + "\n" + rest) ==
              [if line != "" && line[|line| - 1] == '\r' then line[..|line| - 1] else line] + Lines(rest)
    ensures Lines(line) == if line == "" then [] else [line]
  {
    var src := line + "\n" + rest;
    assert forall i | 0 <= i < |line| :: line[i] in line;
    FindIs(src, '\n', |line|);
    assert src[|line| + 1..] == rest && src[..|line|] == line;
    if line != "" { assert src[..|line| - 1] == line[..|line| - 1]; }
    assert Find(line, '\n') == |line| && line[..|line|] == line;
  }

  // ---- The text by its lines --------------------------------------------------------------

  /** The characters of `u` under one line number. */
  ghost function OnlyLine(u: seq<Ch>, line: nat): string {
    if u == [] then ""
    else OnlyLine(u[..|u| - 1], line) + if u[|u| - 1].line == line then [u[|u| - 1].c] else ""
  }

  lemma {:induction false} OnlyLineAppend(u: seq<Ch>, v: seq<Ch>, line: nat)
    ensures OnlyLine(u + v, line) == OnlyLine(u, line) + OnlyLine(v, line)
    decreases |v|
  {
    if v == [] {
      assert u + v == u;
    } else {
      assert (u + v)[..|u + v| - 1] == u + v[..|v| - 1];
      OnlyLineAppend(u, v[..|v| - 1], line);
    }
  }

  lemma {:induction false} OneLineOnly(u: seq<Ch>, own: nat, line: nat)
    requires forall i | 0 <= i < |u| :: u[i].line == own
    ensures OnlyLine(u, line) == if line == own then Text(u) else ""
    decreases |u|
  {
    if u != [] {
      var n := |u| - 1;
      OneLineOnly(u[..n], own, line);
      assert Text(u) == Text(u[..n]) + [u[n].c];
    }
  }

  lemma {:induction false} NotYet(u: seq<Ch>, line: nat)
    requires forall i | 0 <= i < |u| :: u[i].line < line
    ensures OnlyLine(u, line) == ""
    decreases |u|
  {
    if u != [] {
      NotYet(u[..|u| - 1], line);
    }
  }

  ghost predicate Rising(u: seq<Ch>, last: nat) {
    && (forall i | 0 <= i < |u| :: 1 <= u[i].line <= last)
    && (forall i, j | 0 <= i < j < |u| :: u[i].line <= u[j].line)
  }

  /** A line's text, after a space unless nothing precedes it. */
  ghost function Spaced(first: bool, t: string): string {
    if t == "" then "" else if first then t else " " + t
  }

  lemma ContributionOnly(joined: seq<Ch>, raw: string, own: nat, line: nat)
    ensures OnlyLine(Contribution(joined, raw, own), line) == if line == own then Spaced(joined == [], Clean(raw)) else ""
    ensures forall i | 0 <= i < |Contribution(joined, raw, own)| :: Contribution(joined, raw, own)[i].line == own
    ensures Contribution(joined, raw, own) == [] <==> Clean(raw) == ""
  {
    hide Clean;
    hide OnlyLine;
    var x := Contribution(joined, raw, own);
    OneLineOnly(x, own, line);
    if Clean(raw) != "" && joined != [] {
      assert x == [Ch(' ', own)] + OnLine(Clean(raw), own);
      assert Text(x) == " " + Clean(raw);
    } else if Clean(raw) != "" {
      assert x == OnLine(Clean(raw), own);
    }
  }

  /** Nothing counts on the lines from index `k` up to `n`. */
  ghost predicate Quiet(lines: seq<string>, k: nat, n: nat)
    requires n <= |lines|
  {
    forall i | k <= i < n :: Clean(lines[i]) == ""
  }

  lemma QuietFrom(lines: seq<string>, k: nat, n: nat)
    requires k < n <= |lines|
    ensures Quiet(lines, k, n) <==> Clean(lines[k]) == "" && Quiet(lines, k + 1, n)
  {
    hide Clean;
  }

  lemma {:induction false} JoinedFrom(joined: seq<Ch>, lines: seq<string>, k: nat, line: nat)
    requires k <= |lines| && Rising(joined, k)
    ensures var u := JoinFrom(joined, lines, k);
            && Rising(u, |lines|)
            && (line <= k ==> OnlyLine(u, line) == OnlyLine(joined, line))
            && (k < line <= |lines| ==>
                  OnlyLine(u, line) == Spaced(joined == [] && Quiet(lines, k, line - 1), Clean(lines[line - 1])))
    decreases |lines| - k
  {
    hide Clean;
    hide Contribution;
    hide OnlyLine;
    hide Spaced;
    if k < |lines| {
      if k < line - 1 < |lines| { QuietFrom(lines, k, line - 1); }
      hide Quiet;
      var x := Contribution(joined, lines[k], k + 1);
      ContributionOnly(joined, lines[k], k + 1, line);
      JoinedFrom(joined + x, lines, k + 1, line);
      OnlyLineAppend(joined, x, line);
      if line == k + 1 { NotYet(joined, line); }
    }
  }

  // The text that is split: its line numbers start at 1 and never fall, and under number n stands
  // exactly the cleaned line n, after a space unless it is the first line with anything on it.
  lemma TextByLines(src: string, n: nat)
    requires 1 <= n <= |Lines(src)|
    ensures var lines, u := Lines(src), JoinFrom([], Lines(src), 0);
            && Rising(u, |lines|)
            && OnlyLine(u, n) == Spaced(Quiet(lines, 0, n - 1), Clean(lines[n - 1]))
  {
    JoinedFrom([], Lines(src), 0, n);
  }

  // ---- Splitting, character by character --------------------------------------------------

  /** What a finished piece yields: nothing if it is blank, else one statement of its trimmed text,
      numbered as its first character that is not blank. */
  ghost predicate Yields(u: seq<Ch>, ss: seq<Statement>) {
    || (AllBlank(Text(u)) && ss == [])
    || exists i, j | 0 <= i < j <= |u| ::
         && AllBlank(Text(u)[..i]) && Solid(Text(u)[i..j]) && AllBlank(Text(u)[j..])
         && ss == [Statement(u[i].line, Text(u)[i..j])]
  }

  lemma PieceYields(u: seq<Ch>)
    ensures Yields(u, PieceStatement(u))
  {
    var text := Text(u);
    var i := LeadingBlanks(text);
    if i == |u| {
      assert text[..i] == text;
    } else {
      hide Trim;
      TrimTrims(text);
      var a, b :| 0 <= a <= b <= |text| && AllBlank(text[..a]) && Trim(text) == text[a..b] && AllBlank(text[b..]) && Solid(text[a..b]);
      FirstSolid(text, a, b, i);
    }
  }

  lemma FirstSolid(text: string, a: nat, b: nat, i: nat)
    requires a <= b <= |text| && AllBlank(text[..a]) && AllBlank(text[b..]) && Solid(text[a..b])
    requires i < |text| && !IsBlank(text[i]) && forall k | 0 <= k < i :: IsBlank(text[k])
    ensures a == i < b
  {
    var before, solid, after := text[..a], text[a..b], text[b..];
    assert forall k | 0 <= k < a :: before[k] == text[k];
    assert forall k | b <= k < |text| :: after[k - b] == text[k];
    assert a < b ==> solid[0] == text[a];
  }

  // A character other than `;` joins the unfinished tail; a `;` finishes it.
  lemma SplitByCharacter(u: seq<Ch>, c: Ch)
    ensures c.c != ';' ==> Statements(u + [c]) == Statements(u) && Tail(u + [c]) == Tail(u) + [c]
    ensures c.c == ';' ==> Statements(u + [c]) == Statements(u) + PieceStatement(Tail(u)) && Tail(u + [c]) == []
    ensures Statements([]) == [] && Tail([]) == []
    ensures Yields(Tail(u), PieceStatement(Tail(u)))
  {
    hide PieceStatement;
    var t := Tail(u);
    SplitAppend(u, [c]);
    PieceYields(t);
    var v := t + [c];
    NoneInTail(t);
    if c.c == ';' {
      FindIs(Text(v), ';', |t|);
      SplitAtFirst(v, |t|);
      assert v[..|t|] == t && v[|t| + 1..] == [];
      NothingFinished([]);
      assert PieceStatement(t) + [] == PieceStatement(t);
    } else {
      assert Find(Text(v), ';') == |v|;
      NothingFinished(v);
      assert Statements(u) + [] == Statements(u);
    }
  }

  lemma NoneInTail(t: seq<Ch>)
    requires ';' !in Text(t)
    ensures forall i | 0 <= i < |t| :: t[i].c != ';'
  {
    forall i | 0 <= i < |t| ensures t[i].c != ';' {
      assert Text(t)[i] in Text(t);
    }
  }

  // ---- The result -------------------------------------------------------------------------

  ghost predicate AllParse<S(!new)>(ss: seq<Statement>, parse: (nat, string) -> Result<S, string>, vs: seq<S>) {
    |vs| == |ss| && forall i | 0 <= i < |ss| :: parse(ss[i].line, ss[i].text) == Ok(vs[i])
  }

  ghost predicate FailsFirst<S(!new)>(ss: seq<Statement>, parse: (nat, string) -> Result<S, string>, e: ParseError) {
    && e.StatementError?
    && exists k | 0 <= k < |ss| ::
         && e.line == ss[k].line && parse(ss[k].line, ss[k].text) == Err(e.message)
         && forall i | 0 <= i < k :: parse(ss[i].line, ss[i].text).Ok?
  }

  lemma {:induction false} EvaluateByStatement<S(!new)>(ss: seq<Statement>, parse: (nat, string) -> Result<S, string>)
    ensures var r := Evaluate(ss, parse);
            if r.Ok? then AllParse(ss, parse, r.value) else FailsFirst(ss, parse, r.error)
  {
    if ss != [] {
      var rest := ss[1..];
      EvaluateByStatement(rest, parse);
      var first, later := EvaluateOne(ss[0], parse), Evaluate(rest, parse);
      if first.Err? {
        assert FailsFirst(ss, parse, first.error) by { assert 0 < |ss|; }
      } else if later.Err? {
        LaterFails(ss, parse, later.error);
      } else {
        assert forall i | 0 < i < |ss| :: ss[i] == rest[i - 1];
      }
    }
  }

  lemma LaterFails<S(!new)>(ss: seq<Statement>, parse: (nat, string) -> Result<S, string>, e: ParseError)
    requires ss != [] && parse(ss[0].line, ss[0].text).Ok? && FailsFirst(ss[1..], parse, e)
    ensures FailsFirst(ss, parse, e)
  {
    var rest := ss[1..];
    var k :| 0 <= k < |rest| && e.line == rest[k].line && parse(rest[k].line, rest[k].text) == Err(e.message)
             && forall i | 0 <= i < k :: parse(rest[i].line, rest[i].text).Ok?;
    assert ss[k + 1] == rest[k];
    forall i | 0 <= i < k + 1 ensures parse(ss[i].line, ss[i].text).Ok? {
      if i > 0 { assert ss[i] == rest[i - 1]; }
    }
  }

  // The three results of a source. It succeeds only if every statement parses and nothing but blanks
  // follows the last `;`; the first statement that does not parse is the error; and if all parse, an
  // unfinished tail is one, under the line it starts on.
  lemma ResultIsExact<S(!new)>(src: string, parse: (nat, string) -> Result<S, string>)
    ensures var u := JoinFrom([], Lines(src), 0);
            match Reference(src, parse)
            case Ok(vs) => AllParse(Statements(u), parse, vs) && AllBlank(Text(Tail(u)))
            case Err(StatementError(line, message)) => FailsFirst(Statements(u), parse, StatementError(line, message))
            case Err(Unterminated(line, text)) =>
              && (forall i | 0 <= i < |Statements(u)| :: parse(Statements(u)[i].line, Statements(u)[i].text).Ok?)
              && text != "" && Yields(Tail(u), [Statement(line, text)])
  {
    hide PieceStatement;
    hide JoinFrom;
    hide Yields;
    var u := JoinFrom([], Lines(src), 0);
    EvaluateByStatement(Statements(u), parse);
    PieceYields(Tail(u));
    TailYields(Tail(u));
  }

  lemma TailYields(t: seq<Ch>)
    ensures PieceStatement(t) == [] ==> AllBlank(Text(t))
    ensures PieceStatement(t) != [] ==>
              var s := PieceStatement(t)[0]; PieceStatement(t) == [Statement(s.line, s.text)] && s.text != ""
  {
    hide Trim;
    PieceYields(t);
  }
}
