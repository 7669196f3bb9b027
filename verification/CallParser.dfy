/** The call part of a DSL statement: splitting `target.method(arg).accessor` at the dots outside
    parentheses, and a method call into its name and argument. */
module CallParser {
  import opened Bytes
  import opened ScriptParser

  // ---- Dots outside parentheses -----------------------------------------------------------

  /** From parenthesis depth `d` on, `s` never closes more than was opened, has no dot at depth 0
      and ends at depth 0. */
  predicate ClosedFrom(s: string, d: nat) {
    if s == "" then d == 0
    else if s[0] == '(' then ClosedFrom(s[1..], d + 1)
    else if s[0] == ')' then d > 0 && ClosedFrom(s[1..], d - 1)
    else if s[0] == '.' then d > 0 && ClosedFrom(s[1..], d)
    else ClosedFrom(s[1..], d)
  }

  function JoinDots(parts: seq<string>): string
    requires parts != []
  {
    if |parts| == 1 then parts[0] else parts[0] + "." + JoinDots(parts[1..])
  }

  predicate AllClosed(parts: seq<string>) {
    forall i | 0 <= i < |parts| :: ClosedFrom(parts[i], 0)
  }

  /** The parts still to come, the first of them continuing `cur`; absent if parentheses do not
      balance. */
  function PartsFrom(src: string, d: nat, cur: string): (r: Option<seq<string>>)
    ensures r.Some? ==> r.value != []
  {
    if src == "" then (if d == 0 then Some([cur]) else None)
    else if src[0] == '(' then PartsFrom(src[1..], d + 1, cur + [src[0]])
    else if src[0] == ')' then (if d == 0 then None else PartsFrom(src[1..], d - 1, cur + [src[0]]))
    else if src[0] == '.' && d == 0 then Before([cur], PartsFrom(src[1..], 0, ""))
    else PartsFrom(src[1..], d, cur + [src[0]])
  }

  function Before(parts: seq<string>, r: Option<seq<string>>): (t: Option<seq<string>>)
    ensures t.Some? ==> |t.value| >= |parts| && r.Some?
  {
    match r case None => None case Some(more) => Some(parts + more)
  }

  /** The splitting loop of `parse_call`. */
  method SplitAtDots(src: string) returns (r: Option<seq<string>>)
    ensures r == PartsFrom(src, 0, "")
  {
    var parts: seq<string>, depth: nat, cur: string := [], 0, "";
    assert src[0..] == src;
    BeforeNothing(PartsFrom(src, 0, ""));
    for i := 0 to |src|
      invariant PartsFrom(src, 0, "") == Before(parts, PartsFrom(src[i..], depth, cur))
    {
      var ch := src[i];
      assert src[i..][0] == ch && src[i..][1..] == src[i + 1..];
      if ch == '(' {
        depth, cur := depth + 1, cur + [ch];
      } else if ch == ')' {
        if depth == 0 {
          return None;
        }
        depth, cur := depth - 1, cur + [ch];
      } else if ch == '.' && depth == 0 {
        BeforeTwice(parts, [cur], PartsFrom(src[i + 1..], 0, ""));
        parts, cur := parts + [cur], "";
      } else {
        cur := cur + [ch];
      }
    }
    assert src[|src|..] == "";
    if depth != 0 {
      return None;
    }
    return Some(parts + [cur]);
  }

  lemma BeforeNothing(r: Option<seq<string>>)
    ensures Before([], r) == r
  {
    if r.Some? {
      assert [] + r.value == r.value;
    }
  }

  lemma BeforeTwice(a: seq<string>, b: seq<string>, r: Option<seq<string>>)
    ensures Before(a, Before(b, r)) == Before(a + b, r)
  {
    if r.Some? {
      assert a + (b + r.value) == a + b + r.value;
    }
  }

  // The parts found are closed, the first one past `cur`, and joining them gives the source back.
  lemma {:induction false} PartsAreClosed(src: string, d: nat, cur: string) returns (rest: string)
    requires PartsFrom(src, d, cur).Some?
    ensures var parts := PartsFrom(src, d, cur).value;
            && parts[0] == cur + rest && ClosedFrom(rest, d) && AllClosed(parts[1..])
            && JoinDots([rest] + parts[1..]) == src
    decreases |src|
  {
    if src == "" {
      rest := "";
      assert [cur][1..] == [];
    } else if src[0] == '.' && d == 0 {
      rest := "";
      var first := PartsAreClosed(src[1..], 0, "");
      var more := PartsFrom(src[1..], 0, "").value;
      assert more == [more[0]] + more[1..];
      assert ([cur] + more)[1..] == more && ([rest] + more)[1..] == more;
      assert "" + first == first;
      forall i | 0 <= i < |more|
        ensures ClosedFrom(more[i], 0)
      {
        if i > 0 { assert more[i] == more[1..][i - 1]; }
      }
      assert "." + src[1..] == src;
    } else {
      var depth := if src[0] == '(' then d + 1 else if src[0] == ')' then d - 1 else d;
      var tail := PartsAreClosed(src[1..], depth, cur + [src[0]]);
      rest := [src[0]] + tail;
      assert rest[1..] == tail;
      assert cur + [src[0]] + tail == cur + rest;
      JoinCons(src[0], tail, PartsFrom(src, d, cur).value[1..]);
      assert [src[0]] + src[1..] == src;
    }
  }

  lemma JoinCons(c: char, first: string, more: seq<string>)
    ensures JoinDots([[c] + first] + more) == [c] + JoinDots([first] + more)
  {
    assert ([[c] + first] + more)[1..] == more && ([first] + more)[1..] == more;
    if more != [] {
      assert [c] + first + "." + JoinDots(more) == [c] + (first + "." + JoinDots(more));
    }
  }

  // Any closed parts joined by dots are found again.
  lemma {:induction false} ClosedPartsAreFound(first: string, more: seq<string>, d: nat, cur: string)
    requires ClosedFrom(first, d) && AllClosed(more)
    ensures PartsFrom(JoinDots([first] + more), d, cur) == Some([cur + first] + more)
    decreases |more|, |first|
  {
    var src := JoinDots([first] + more);
    assert ([first] + more)[1..] == more;
    if first != "" {
      var tail := first[1..];
      assert first == [first[0]] + tail;
      JoinCons(first[0], tail, more);
      assert src[1..] == JoinDots([tail] + more);
      var depth := if first[0] == '(' then d + 1 else if first[0] == ')' then d - 1 else d;
      ClosedPartsAreFound(tail, more, depth, cur + [first[0]]);
      assert cur + [first[0]] + tail == cur + first;
    } else if more != [] {
      assert src[1..] == JoinDots(more);
      assert more == [more[0]] + more[1..];
      assert AllClosed(more[1..]);
      ClosedPartsAreFound(more[0], more[1..], 0, "");
      assert "" + more[0] == more[0];
      assert cur + "" == cur;
    } else {
      assert cur + first == cur && [cur + first] + more == [cur];
    }
  }

  // The splitting is exact: the parts are the only closed strings that joined by dots give the
  // source, and there are none exactly when the loop reports unbalanced parentheses.
  lemma SplitIsExact(src: string, parts: seq<string>)
    ensures PartsFrom(src, 0, "") == Some(parts) <==> parts != [] && AllClosed(parts) && JoinDots(parts) == src
  {
    if PartsFrom(src, 0, "") == Some(parts) {
      var rest := PartsAreClosed(src, 0, "");
      assert "" + rest == rest;
      assert parts == [rest] + parts[1..];
    }
    if parts != [] && AllClosed(parts) && JoinDots(parts) == src {
      assert parts == [parts[0]] + parts[1..];
      ClosedPartsAreFound(parts[0], parts[1..], 0, "");
      assert "" + parts[0] == parts[0];
    }
  }

  /** How many parentheses are open before position `k`, `d` of them from before. */
  ghost function OpenAt(s: string, k: nat, d: nat): int
    requires k <= |s|
  {
    d + multiset(s[..k])['('] - multiset(s[..k])[')']
  }

  /** By counting: no position has more closed than opened, all are closed at the end, and every dot
      stands inside a pair. */
  ghost predicate Balanced(s: string, d: nat) {
    && (forall k | 0 <= k <= |s| :: OpenAt(s, k, d) >= 0)
    && OpenAt(s, |s|, d) == 0
    && forall k | 0 <= k < |s| && s[k] == '.' :: OpenAt(s, k, d) > 0
  }

  function Step(c: char): int {
    if c == '(' then 1 else if c == ')' then -1 else 0
  }

  lemma OpenShifts(s: string, k: nat, d: nat, e: nat)
    requires k < |s| && e == d + Step(s[0])
    ensures OpenAt(s, k + 1, d) == OpenAt(s[1..], k, e)
  {
    assert s[..k + 1] == [s[0]] + s[1..][..k];
  }

  lemma OpenNone(s: string, d: nat)
    ensures OpenAt(s, 0, d) == d
  {
  }

  lemma BalancedTail(s: string, d: nat, rest: string, e: nat)
    requires s != "" && rest == s[1..] && e == d + Step(s[0])
    requires Balanced(s, d)
    ensures Balanced(rest, e) && (s[0] == '.' ==> d > 0)
  {
    hide OpenAt;
    hide Step;
    OpenNone(s, d);
    forall k | 0 <= k <= |rest| ensures OpenAt(rest, k, e) >= 0 {
      OpenShifts(s, k, d, e);
    }
    forall k | 0 <= k < |rest| && rest[k] == '.' ensures OpenAt(rest, k, e) > 0 {
      OpenShifts(s, k, d, e);
      assert s[k + 1] == '.';
    }
    OpenShifts(s, |rest|, d, e);
  }

  lemma BalancedCons(s: string, d: nat, rest: string, e: nat)
    requires s != "" && rest == s[1..] && e == d + Step(s[0])
    requires Balanced(rest, e) && (s[0] == '.' ==> d > 0)
    ensures Balanced(s, d)
  {
    hide OpenAt;
    hide Step;
    OpenNone(s, d);
    forall k | 0 <= k <= |s| ensures OpenAt(s, k, d) >= 0 {
      if k > 0 { OpenShifts(s, k - 1, d, e); }
    }
    forall k | 0 <= k < |s| && s[k] == '.' ensures OpenAt(s, k, d) > 0 {
      if k > 0 {
        OpenShifts(s, k - 1, d, e);
        assert rest[k - 1] == '.';
      }
    }
    OpenShifts(s, |rest|, d, e);
  }

  lemma NothingOpen(s: string, d: nat)
    requires s == ""
    ensures Balanced(s, d) <==> d == 0
  {
    assert OpenAt(s, 0, d) == d;
  }

  lemma NoneToClose(s: string)
    requires s != "" && s[0] == ')'
    ensures !Balanced(s, 0)
  {
    assert s[..1] == [')'];
    assert OpenAt(s, 1, 0) == -1;
  }

  // Closed strings are those that counting finds balanced.
  lemma {:induction false} ClosedIsBalanced(s: string, d: nat)
    ensures ClosedFrom(s, d) <==> Balanced(s, d)
    decreases |s|
  {
    hide Balanced;
    if s == "" {
      NothingOpen(s, d);
    } else if s[0] == ')' && d == 0 {
      NoneToClose(s);
    } else {
      var e := d + Step(s[0]);
      ClosedIsBalanced(s[1..], e);
      if Balanced(s, d) { BalancedTail(s, d, s[1..], e); }
      if Balanced(s[1..], e) && (s[0] == '.' ==> d > 0) { BalancedCons(s, d, s[1..], e); }
    }
  }

  // ---- Name and argument ------------------------------------------------------------------

  /** The position just past the last `c`, or 0. */
  function AfterLast(s: string, c: char): (k: nat)
    ensures k <= |s| && (k > 0 ==> s[k - 1] == c) && forall i | k <= i < |s| :: s[i] != c
  {
    if s == "" || s[|s| - 1] == c then |s| else AfterLast(s[..|s| - 1], c)
  }

  datatype CallParts = CallParts(name: string, arg: Option<string>)

  /** `split_call`. */
  function SplitCall(s: string): Option<CallParts> {
    var start := Find(s, '(');
    if start == |s| then Some(CallParts(s, None))
    else
      var end := AfterLast(s, ')');
      if end == 0 || end - 1 < start || end != |s| then None
      else Some(CallParts(Trim(s[..start]), Some(Trim(s[start + 1..end - 1]))))
  }

  /** `s` is a name without an opening parenthesis and a parenthesised argument. */
  ghost predicate IsCall(s: string, name: string, arg: string) {
    '(' !in name && s == name + "(" + arg + ")"
  }

  // A call with an argument is accepted exactly when it is a name and everything in one outer pair
  // of parentheses, and comes out as those two trimmed; without a parenthesis it is a name as it is.
  lemma SplitCallIsExact(s: string, r: CallParts)
    ensures '(' in s ==>
              (SplitCall(s) == Some(r) <==>
                 exists name, arg :: IsCall(s, name, arg) && r == CallParts(Trim(name), Some(Trim(arg))))
    ensures '(' !in s ==> (SplitCall(s) == Some(r) <==> r == CallParts(s, None))
  {
    hide *;
    if '(' !in s {
      NameAlone(s);
    } else if SplitCall(s) == Some(r) {
      var name, arg := CallFound(s, r);
    }
    if exists name, arg :: IsCall(s, name, arg) && r == CallParts(Trim(name), Some(Trim(arg))) {
      var name, arg :| IsCall(s, name, arg) && r == CallParts(Trim(name), Some(Trim(arg)));
      CallSplits(s, name, arg);
    }
  }

  lemma NameAlone(s: string)
    requires '(' !in s
    ensures SplitCall(s) == Some(CallParts(s, None))
  {
    assert Find(s, '(') == |s|;
  }

  lemma CallFound(s: string, r: CallParts) returns (name: string, arg: string)
    requires '(' in s && SplitCall(s) == Some(r)
    ensures IsCall(s, name, arg) && r == CallParts(Trim(name), Some(Trim(arg)))
  {
    hide Trim;
    var start := Find(s, '(');
    name, arg := s[..start], s[start + 1..|s| - 1];
    assert s == name + "(" + arg + ")";
  }

  lemma CallSplits(s: string, name: string, arg: string)
    requires IsCall(s, name, arg)
    ensures SplitCall(s) == Some(CallParts(Trim(name), Some(Trim(arg))))
  {
    hide Trim;
    CallEnds(s, name, arg);
  }

  lemma CallEnds(s: string, name: string, arg: string)
    requires IsCall(s, name, arg)
    ensures |name| + 1 < |s| && Find(s, '(') == |name| && AfterLast(s, ')') == |s|
    ensures s[..|name|] == name && s[|name| + 1..|s| - 1] == arg
  {
    assert s[|name|] == '(' && s[|s| - 1] == ')';
    assert forall i | 0 <= i < |name| :: s[i] == name[i];
    FindIs(s, '(', |name|);
  }
}
