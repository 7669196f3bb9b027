/** The component dispatcher: sweep the queue until a sweep dispatches nothing, lock the configs, and
    do it again. A sweep and a phase are functions of the queue; what they do is proved to depend on
    the order of the queue exactly when some two ready components do not commute. */
module Dispatcher {

  /** What one call of `run` does: its dependencies are missing, it fails leaving storage alone, or
      it succeeds and adds services. */
  datatype Run = NotReady | Failed | Added(services: set<nat>)

  /** How the components of a platform behave: `run` sees the services in storage and whether
      configs are locked. */
  datatype Platform = Platform(initializes: nat -> bool, run: (nat, set<nat>, bool) -> Run)

  /** Part-way through a phase: the services in storage, the components removed from the queue in
      this phase, and those that have run successfully so far. */
  datatype State = State(services: set<nat>, gone: set<nat>, done: set<nat>)

  predicate Ready(p: Platform, locked: bool, services: set<nat>, c: nat) {
    p.run(c, services, locked) != NotReady
  }

  function ToSet(s: seq<nat>): set<nat> {
    set i | 0 <= i < |s| :: s[i]
  }

  predicate NoDup(s: seq<nat>) {
    forall i, j | 0 <= i < j < |s| :: s[i] != s[j]
  }

  // ---- Sweeps and phases ------------------------------------------------------------------

  /** One component of a sweep. */
  function Visit(p: Platform, locked: bool, x: State, c: nat): State {
    match p.run(c, x.services, locked)
    case NotReady => x
    case Failed => x.(gone := x.gone + {c})
    case Added(services) => State(x.services + services, x.gone + {c}, x.done + {c})
  }

  function Sweep(p: Platform, locked: bool, x: State, queue: seq<nat>): State {
    if queue == [] then x
    else Visit(p, locked, Sweep(p, locked, x, queue[..|queue| - 1]), queue[|queue| - 1])
  }

  /** What is left of a queue once the components of `gone` have been removed. */
  function Kept(queue: seq<nat>, gone: set<nat>): (kept: seq<nat>)
    ensures |kept| <= |queue|
  {
    if queue == [] then []
    else
      var n := |queue| - 1;
      Kept(queue[..n], gone) + if queue[n] in gone then [] else [queue[n]]
  }

  /** Sweeps until one dispatches nothing. */
  function Phase(p: Platform, locked: bool, x: State, queue: seq<nat>): State
    decreases |queue|
  {
    var y := Sweep(p, locked, x, queue);
    if y.done == x.done then y
    else
      DispatchShortens(p, locked, x, queue);
      Phase(p, locked, y, Kept(queue, y.gone))
  }

  function Fresh(services: set<nat>, done: set<nat>): State {
    State(services, {}, done)
  }

  function Initialized(p: Platform, components: seq<nat>): seq<nat> {
    if components == [] then []
    else
      var n := |components| - 1;
      Initialized(p, components[..n]) + if p.initializes(components[n]) then [components[n]] else []
  }

  /** A whole dispatch: both phases and the components never dispatched. */
  datatype Outcome = Outcome(first: State, second: State, left: seq<nat>)

  function Dispatch(p: Platform, services: set<nat>, components: seq<nat>): Outcome {
    var queue := Initialized(p, components);
    var x := Phase(p, false, Fresh(services, {}), queue);
    var rest := Kept(queue, x.gone);
    var y := Phase(p, true, Fresh(x.services, x.done), rest);
    Outcome(x, y, Kept(rest, y.gone))
  }

  // ---- Facts about queues -----------------------------------------------------------------

  lemma Last(s: seq<nat>)
    requires s != []
    ensures var n := |s| - 1; ToSet(s) == ToSet(s[..n]) + {s[n]} && (NoDup(s) ==> NoDup(s[..n]) && s[n] !in ToSet(s[..n]))
  {
    var n := |s| - 1;
    forall c | c in ToSet(s) ensures c in ToSet(s[..n]) + {s[n]} {
      var k :| 0 <= k < |s| && s[k] == c;
      if k < n { assert s[..n][k] == c; }
    }
    forall c | c in ToSet(s[..n]) ensures c in ToSet(s) {
      var k :| 0 <= k < n && s[..n][k] == c;
      assert s[k] == c;
    }
    assert s[n] in ToSet(s);
  }

  lemma Push(s: seq<nat>, c: nat)
    ensures ToSet(s + [c]) == ToSet(s) + {c}
    ensures NoDup(s) && c !in ToSet(s) ==> NoDup(s + [c])
  {
    Last(s + [c]);
    assert (s + [c])[..|s|] == s;
  }

  lemma {:induction false} KeptFacts(queue: seq<nat>, gone: set<nat>)
    ensures ToSet(Kept(queue, gone)) == ToSet(queue) - gone
    ensures NoDup(queue) ==> NoDup(Kept(queue, gone))
  {
    if queue != [] {
      var n := |queue| - 1;
      Last(queue);
      KeptFacts(queue[..n], gone);
      Push(Kept(queue[..n], gone), queue[n]);
      assert Kept(queue[..n], gone) + [] == Kept(queue[..n], gone);
    }
  }

  lemma {:induction false} KeptAll(queue: seq<nat>, gone: set<nat>)
    requires ToSet(queue) !! gone
    ensures Kept(queue, gone) == queue
  {
    if queue != [] {
      Last(queue);
      KeptAll(queue[..|queue| - 1], gone);
    }
  }

  lemma {:induction false} KeptIgnores(queue: seq<nat>, gone: set<nat>, c: nat)
    requires c !in ToSet(queue)
    ensures Kept(queue, gone + {c}) == Kept(queue, gone)
  {
    if queue != [] {
      Last(queue);
      KeptIgnores(queue[..|queue| - 1], gone, c);
    }
  }

  lemma {:induction false} KeptTwice(queue: seq<nat>, some: set<nat>, more: set<nat>)
    requires some <= more
    ensures Kept(Kept(queue, some), more) == Kept(queue, more)
  {
    if queue != [] {
      var n := |queue| - 1;
      var before := Kept(queue[..n], some);
      KeptTwice(queue[..n], some, more);
      if queue[n] in some {
        assert before + [] == before;
      } else {
        assert (before + [queue[n]])[..|before|] == before;
      }
    }
  }

  lemma {:induction false} KeptShortens(queue: seq<nat>, gone: set<nat>, c: nat)
    requires c in ToSet(queue) && c in gone
    ensures |Kept(queue, gone)| < |queue|
  {
    Last(queue);
    var n := |queue| - 1;
    if queue[n] != c {
      KeptShortens(queue[..n], gone, c);
    }
  }

  // ---- Facts about sweeps -----------------------------------------------------------------

  // A sweep only removes members of its queue, and every success is a removal.
  lemma {:induction false} SweepFacts(p: Platform, locked: bool, x: State, queue: seq<nat>)
    ensures var y := Sweep(p, locked, x, queue);
            && x.gone <= y.gone <= x.gone + ToSet(queue)
            && x.done <= y.done <= x.done + ToSet(queue) && y.done - x.done <= y.gone
            && x.services <= y.services
  {
    if queue != [] {
      Last(queue);
      SweepFacts(p, locked, x, queue[..|queue| - 1]);
    }
  }

  lemma DispatchShortens(p: Platform, locked: bool, x: State, queue: seq<nat>)
    requires Sweep(p, locked, x, queue).done != x.done
    ensures |Kept(queue, Sweep(p, locked, x, queue).gone)| < |queue|
  {
    var y := Sweep(p, locked, x, queue);
    SweepFacts(p, locked, x, queue);
    assert y.done == x.done + (y.done - x.done);
    var c :| c in y.done - x.done;
    KeptShortens(queue, y.gone, c);
  }

  // A sweep that dispatches nothing leaves storage alone, so what it retained is unready still.
  lemma {:induction false} QuietSweep(p: Platform, locked: bool, x: State, queue: seq<nat>)
    requires ToSet(queue) !! x.done && Sweep(p, locked, x, queue).done == x.done
    ensures var y := Sweep(p, locked, x, queue);
            && y.services == x.services
            && forall c | c in ToSet(queue) - y.gone :: !Ready(p, locked, y.services, c)
  {
    if queue != [] {
      var n := |queue| - 1;
      Last(queue);
      SweepFacts(p, locked, x, queue[..n]);
      assert queue[n] in ToSet(queue);
      QuietSweep(p, locked, x, queue[..n]);
    }
  }

  /** Nothing of the queue that is still in it is ready. */
  ghost predicate Exhausted(p: Platform, locked: bool, y: State, queue: seq<nat>) {
    forall c | c in ToSet(queue) - y.gone :: !Ready(p, locked, y.services, c)
  }

  // Whatever the platform, a phase ends with everything left over unready in the storage it leaves.
  lemma {:induction false} PhaseExhausts(p: Platform, locked: bool, x: State, queue: seq<nat>)
    requires ToSet(queue) !! x.done
    ensures var y := Phase(p, locked, x, queue);
            && Exhausted(p, locked, y, queue)
            && x.gone <= y.gone <= x.gone + ToSet(queue) && x.done <= y.done <= x.done + ToSet(queue)
            && y.done - x.done <= y.gone
    decreases |queue|
  {
    var y := Sweep(p, locked, x, queue);
    SweepFacts(p, locked, x, queue);
    if y.done == x.done {
      QuietSweep(p, locked, x, queue);
    } else {
      DispatchShortens(p, locked, x, queue);
      var rest := Kept(queue, y.gone);
      KeptFacts(queue, y.gone);
      assert ToSet(rest) !! y.done by {
        forall c | c in ToSet(rest) ensures c !in y.done { assert c !in x.done; }
      }
      PhaseExhausts(p, locked, y, rest);
      var z := Phase(p, locked, y, rest);
      forall c | c in ToSet(queue) - z.gone ensures !Ready(p, locked, z.services, c) {
        assert c in ToSet(rest) - z.gone;
      }
    }
  }

  // Every component left over by a dispatch is unready in the final storage.
  lemma LeftoversAreUnready(p: Platform, services: set<nat>, components: seq<nat>, c: nat)
    requires c in ToSet(Dispatch(p, services, components).left)
    ensures !Ready(p, true, Dispatch(p, services, components).second.services, c)
  {
    var queue := Initialized(p, components);
    var x := Phase(p, false, Fresh(services, {}), queue);
    var rest := Kept(queue, x.gone);
    PhaseExhausts(p, false, Fresh(services, {}), queue);
    KeptFacts(queue, x.gone);
    PhaseExhausts(p, true, Fresh(x.services, x.done), rest);
    KeptFacts(rest, Phase(p, true, Fresh(x.services, x.done), rest).gone);
  }

  // ---- Order of registration --------------------------------------------------------------

  /** More services never make a component unready within a phase. */
  ghost predicate Monotone(p: Platform) {
    forall c: nat, s: set<nat>, t: set<nat>, locked: bool ::
      s <= t && Ready(p, locked, s, c) ==> Ready(p, locked, t, c)
  }

  function After(services: set<nat>, r: Run): set<nat> {
    if r.Added? then services + r.services else services
  }

  /** Two components commute on a storage: run in either order each has the same kind of result and
      the storage ends the same. */
  predicate CommuteOn(p: Platform, locked: bool, s: set<nat>, c: nat, d: nat) {
    var c1, d1 := p.run(c, s, locked), p.run(d, s, locked);
    var d2, c2 := p.run(d, After(s, c1), locked), p.run(c, After(s, d1), locked);
    && After(After(s, c1), d2) == After(After(s, d1), c2)
    && c1.Added? == c2.Added? && d1.Added? == d2.Added?
  }

  ghost predicate Commute(p: Platform, locked: bool) {
    forall s: set<nat>, c: nat, d: nat | c != d && Ready(p, locked, s, c) && Ready(p, locked, s, d) ::
      CommuteOn(p, locked, s, c, d)
  }

  lemma Diamond(p: Platform, locked: bool, x: State, c: nat, d: nat)
    requires Monotone(p) && c != d && Ready(p, locked, x.services, c) && Ready(p, locked, x.services, d)
    ensures Ready(p, locked, Visit(p, locked, x, c).services, d)
    ensures CommuteOn(p, locked, x.services, c, d) ==>
              Visit(p, locked, Visit(p, locked, x, c), d) == Visit(p, locked, Visit(p, locked, x, d), c)
    ensures x.done == {} && Visit(p, locked, Visit(p, locked, x, c), d) == Visit(p, locked, Visit(p, locked, x, d), c) ==>
              CommuteOn(p, locked, x.services, c, d)
  {
    var s := x.services;
    assert s <= Visit(p, locked, x, c).services && s <= Visit(p, locked, x, d).services;
    var cd, dc := Visit(p, locked, Visit(p, locked, x, c), d), Visit(p, locked, Visit(p, locked, x, d), c);
    assert Ready(p, locked, Visit(p, locked, x, d).services, c);
    assert cd.gone == x.gone + {c} + {d} && dc.gone == x.gone + {d} + {c};
    if x.done == {} {
      assert (c in cd.done <==> p.run(c, s, locked).Added?)
          && (d in dc.done <==> p.run(d, s, locked).Added?);
    }
  }

  /** Some ready candidate still in the queue. */
  ghost function Pick(p: Platform, locked: bool, x: State, cands: set<nat>): (c: nat)
    requires exists c | c in cands - x.gone :: Ready(p, locked, x.services, c)
    ensures c in cands - x.gone && Ready(p, locked, x.services, c)
  {
    var c :| c in cands - x.gone && Ready(p, locked, x.services, c);
    c
  }

  /** Run one ready candidate after another, in no particular order, until none is left. */
  ghost function Normal(p: Platform, locked: bool, x: State, cands: set<nat>): State
    decreases cands - x.gone
  {
    if exists c | c in cands - x.gone :: Ready(p, locked, x.services, c) then
      Normal(p, locked, Visit(p, locked, x, Pick(p, locked, x, cands)), cands)
    else x
  }

  // Whichever ready candidate goes first, the end is the same.
  lemma {:induction false} VisitKeepsNormal(p: Platform, locked: bool, x: State, cands: set<nat>, c: nat)
    requires Monotone(p) && Commute(p, locked) && c in cands - x.gone && Ready(p, locked, x.services, c)
    ensures Normal(p, locked, Visit(p, locked, x, c), cands) == Normal(p, locked, x, cands)
    decreases cands - x.gone
  {
    var d := Pick(p, locked, x, cands);
    if c != d {
      hide Monotone;
      hide Commute;
      assert CommuteOn(p, locked, x.services, c, d) by { CommutesOn(p, locked, x.services, c, d); }
      Diamond(p, locked, x, c, d);
      Diamond(p, locked, x, d, c);
      VisitKeepsNormal(p, locked, Visit(p, locked, x, d), cands, c);
      VisitKeepsNormal(p, locked, Visit(p, locked, x, c), cands, d);
    }
  }

  lemma CommutesOn(p: Platform, locked: bool, s: set<nat>, c: nat, d: nat)
    requires Commute(p, locked) && c != d && Ready(p, locked, s, c) && Ready(p, locked, s, d)
    ensures CommuteOn(p, locked, s, c, d)
  {
  }

  lemma {:induction false} SweepKeepsNormal(p: Platform, locked: bool, x: State, queue: seq<nat>, cands: set<nat>)
    requires Monotone(p) && Commute(p, locked) && NoDup(queue) && ToSet(queue) <= cands - x.gone
    ensures Normal(p, locked, Sweep(p, locked, x, queue), cands) == Normal(p, locked, x, cands)
  {
    if queue != [] {
      var n := |queue| - 1;
      Last(queue);
      SweepKeepsNormal(p, locked, x, queue[..n], cands);
      var y := Sweep(p, locked, x, queue[..n]);
      SweepFacts(p, locked, x, queue[..n]);
      if Ready(p, locked, y.services, queue[n]) {
        VisitKeepsNormal(p, locked, y, cands, queue[n]);
      }
    }
  }

  lemma {:induction false} PhaseIsNormal(p: Platform, locked: bool, x: State, queue: seq<nat>, cands: set<nat>)
    requires Monotone(p) && Commute(p, locked) && NoDup(queue) && ToSet(queue) == cands - x.gone
    requires ToSet(queue) !! x.done
    ensures Phase(p, locked, x, queue) == Normal(p, locked, x, cands)
    decreases |queue|
  {
    hide Monotone;
    hide Commute;
    var y := Sweep(p, locked, x, queue);
    SweepKeepsNormal(p, locked, x, queue, cands);
    SweepFacts(p, locked, x, queue);
    if y.done == x.done {
      QuietSweep(p, locked, x, queue);
    } else {
      DispatchShortens(p, locked, x, queue);
      var rest := Kept(queue, y.gone);
      KeptFacts(queue, y.gone);
      forall c | c in ToSet(rest) ensures c !in y.done { assert c !in x.done; }
      assert ToSet(rest) == cands - y.gone;
      PhaseIsNormal(p, locked, y, rest, cands);
    }
  }

  // Two components that do not commute show it when registered alone, in either order.
  lemma PairPhase(p: Platform, locked: bool, s: set<nat>, c: nat, d: nat)
    requires Monotone(p) && c != d && Ready(p, locked, s, c) && Ready(p, locked, s, d)
    ensures Phase(p, locked, Fresh(s, {}), [c, d]) == Visit(p, locked, Visit(p, locked, Fresh(s, {}), c), d)
  {
    var x, queue := Fresh(s, {}), [c, d];
    Diamond(p, locked, x, c, d);
    assert queue[..1] == [c] && [c][..0] == [];
    assert Sweep(p, locked, x, [c]) == Visit(p, locked, Sweep(p, locked, x, []), c);
    var y := Sweep(p, locked, x, queue);
    assert y == Visit(p, locked, Visit(p, locked, x, c), d);
    assert c in y.gone && d in y.gone;
    assert Kept([c], y.gone) == [] && Kept(queue, y.gone) == [];
    assert Sweep(p, locked, y, []) == y;
  }

  /** The same components, registered in any order, each once. */
  predicate SameComponents(a: seq<nat>, b: seq<nat>) {
    NoDup(a) && NoDup(b) && ToSet(a) == ToSet(b)
  }

  // The order in which components are registered makes no difference to a phase, whatever the
  // components and the storage it starts from, exactly when any two ready components commute.
  lemma OrderNeverMatters(p: Platform, locked: bool)
    requires Monotone(p)
    ensures Commute(p, locked) <==>
            forall s: set<nat>, a: seq<nat>, b: seq<nat> | SameComponents(a, b) ::
              Phase(p, locked, Fresh(s, {}), a) == Phase(p, locked, Fresh(s, {}), b)
  {
    hide *;
    if Commute(p, locked) {
      forall s: set<nat>, a: seq<nat>, b: seq<nat> | SameComponents(a, b)
        ensures Phase(p, locked, Fresh(s, {}), a) == Phase(p, locked, Fresh(s, {}), b)
      {
        SamePhase(p, locked, s, a, b);
      }
    } else {
      var a, b, s := OrderShows(p, locked);
    }
  }

  lemma SamePhase(p: Platform, locked: bool, s: set<nat>, a: seq<nat>, b: seq<nat>)
    requires Monotone(p) && Commute(p, locked) && SameComponents(a, b)
    ensures Phase(p, locked, Fresh(s, {}), a) == Phase(p, locked, Fresh(s, {}), b)
  {
    PhaseIsNormal(p, locked, Fresh(s, {}), a, ToSet(a));
    PhaseIsNormal(p, locked, Fresh(s, {}), b, ToSet(a));
  }

  lemma OrderShows(p: Platform, locked: bool) returns (a: seq<nat>, b: seq<nat>, s: set<nat>)
    requires Monotone(p) && !Commute(p, locked)
    ensures SameComponents(a, b)
    ensures Phase(p, locked, Fresh(s, {}), a) != Phase(p, locked, Fresh(s, {}), b)
  {
    var c: nat, d: nat;
    s, c, d :| c != d && Ready(p, locked, s, c) && Ready(p, locked, s, d) && !CommuteOn(p, locked, s, c, d);
    a, b := [c, d], [d, c];
    assert ToSet(a) == {c, d} by { assert a[0] == c && a[1] == d; }
    assert ToSet(b) == {c, d} by { assert b[0] == d && b[1] == c; }
    hide Monotone;
    hide Phase;
    hide CommuteOn;
    PairPhase(p, locked, s, c, d);
    PairPhase(p, locked, s, d, c);
    Diamond(p, locked, Fresh(s, {}), c, d);
  }

  // It does make a difference on some platforms: component 0 adds service 1, and component 1 adds
  // service 2 only if it finds service 1.
  lemma OrderCanMatter()
    ensures var p := Platform(c => true, (c, s, locked) => if c == 0 then Added({1}) else if 1 in s then Added({2}) else Added({}));
            && Monotone(p)
            && 2 in Dispatch(p, {}, [0, 1]).second.services && 2 !in Dispatch(p, {}, [1, 0]).second.services
  {
    var p := Platform(c => true, (c, s, locked) => if c == 0 then Added({1}) else if 1 in s then Added({2}) else Added({}));
    PairDispatch(p, 0, 1);
    PairDispatch(p, 1, 0);
  }

  lemma PairDispatch(p: Platform, c: nat, d: nat)
    requires Monotone(p) && c != d && Ready(p, false, {}, c) && Ready(p, false, {}, d)
    requires p.initializes(c) && p.initializes(d)
    ensures Dispatch(p, {}, [c, d]).second.services == Visit(p, false, Visit(p, false, Fresh({}, {}), c), d).services
  {
    assert [c, d][..1] == [c] && [c][..0] == [];
    assert Initialized(p, [c]) == Initialized(p, []) + [c];
    assert Initialized(p, [c, d]) == [c, d];
    PairPhase(p, false, {}, c, d);
    Diamond(p, false, Fresh({}, {}), c, d);
    var x := Phase(p, false, Fresh({}, {}), [c, d]);
    assert Kept([c], x.gone) == [] && Kept([c, d], x.gone) == [];
    assert Sweep(p, true, Fresh(x.services, x.done), []) == Fresh(x.services, x.done);
  }

  // So if components commute in both phases, a whole dispatch has the same storage, the same
  // successful components and the same leftovers for every registration order.
  lemma DispatchIgnoresOrder(p: Platform, services: set<nat>, a: seq<nat>, b: seq<nat>)
    requires Monotone(p) && Commute(p, false) && Commute(p, true) && SameComponents(a, b)
    ensures var r, t := Dispatch(p, services, a), Dispatch(p, services, b);
            r.first == t.first && r.second == t.second && ToSet(r.left) == ToSet(t.left)
  {
    var qa, qb := Initialized(p, a), Initialized(p, b);
    InitializedFacts(p, a);
    InitializedFacts(p, b);
    assert ToSet(qa) == ToSet(qb);
    var start := Fresh(services, {});
    PhaseIsNormal(p, false, start, qa, ToSet(qa));
    PhaseIsNormal(p, false, start, qb, ToSet(qa));
    PhaseExhausts(p, false, start, qa);
    var x := Phase(p, false, start, qa);
    var ra, rb := Kept(qa, x.gone), Kept(qb, x.gone);
    KeptFacts(qa, x.gone);
    KeptFacts(qb, x.gone);
    var mid := Fresh(x.services, x.done);
    PhaseIsNormal(p, true, mid, ra, ToSet(ra));
    PhaseIsNormal(p, true, mid, rb, ToSet(ra));
    var y := Phase(p, true, mid, ra);
    KeptFacts(ra, y.gone);
    KeptFacts(rb, y.gone);
  }

  lemma {:induction false} InitializedFacts(p: Platform, components: seq<nat>)
    ensures ToSet(Initialized(p, components)) == set c | c in ToSet(components) && p.initializes(c)
    ensures NoDup(components) ==> NoDup(Initialized(p, components))
  {
    if components != [] {
      var n := |components| - 1;
      Last(components);
      InitializedFacts(p, components[..n]);
      Push(Initialized(p, components[..n]), components[n]);
      assert Initialized(p, components[..n]) + [] == Initialized(p, components[..n]);
    }
  }

  // ---- The least fixpoint -----------------------------------------------------------------

  /** What a component does when it is ready does not depend on what else is in storage. */
  ghost predicate Fixed(p: Platform, locked: bool) {
    forall c: nat, s: set<nat>, t: set<nat> | Ready(p, locked, s, c) && Ready(p, locked, t, c) ::
      p.run(c, s, locked) == p.run(c, t, locked)
  }

  lemma FixedCommutes(p: Platform, locked: bool)
    requires Monotone(p) && Fixed(p, locked)
    ensures Commute(p, locked)
  {
    forall s: set<nat>, c: nat, d: nat | c != d && Ready(p, locked, s, c) && Ready(p, locked, s, d)
      ensures CommuteOn(p, locked, s, c, d)
    {
      var c1, d1 := p.run(c, s, locked), p.run(d, s, locked);
      assert s <= After(s, c1) && s <= After(s, d1);
      assert Ready(p, locked, After(s, c1), d) && Ready(p, locked, After(s, d1), c);
      assert After(After(s, c1), d1) == After(After(s, d1), c1);
    }
  }

  /** What a component does once it is ready. */
  ghost function Does(p: Platform, locked: bool, c: nat): Run {
    if exists s: set<nat> :: Ready(p, locked, s, c) then
      var s: set<nat> :| Ready(p, locked, s, c);
      p.run(c, s, locked)
    else NotReady
  }

  /** The services the components of `gone` add. */
  ghost function Provided(p: Platform, locked: bool, gone: set<nat>): set<nat> {
    set c, s | c in gone && Does(p, locked, c).Added? && s in Does(p, locked, c).services :: s
  }

  /** Every candidate that is ready once the components of `y` have run is in `y`. */
  ghost predicate Closed(p: Platform, locked: bool, cands: set<nat>, base: set<nat>, y: set<nat>) {
    forall c | c in cands && Ready(p, locked, base + Provided(p, locked, y), c) :: c in y
  }

  lemma VisitProvides(p: Platform, locked: bool, base: set<nat>, x: State, c: nat)
    requires Fixed(p, locked) && x.services == base + Provided(p, locked, x.gone)
    ensures var y := Visit(p, locked, x, c); y.services == base + Provided(p, locked, y.gone)
  {
    if Ready(p, locked, x.services, c) {
      assert Does(p, locked, c) == p.run(c, x.services, locked);
      assert Provided(p, locked, x.gone + {c}) == After(Provided(p, locked, x.gone), Does(p, locked, c));
    }
  }

  lemma {:induction false} SweepWithin(p: Platform, locked: bool, cands: set<nat>, base: set<nat>, x: State, queue: seq<nat>, y: set<nat>)
    requires Monotone(p) && Fixed(p, locked) && ToSet(queue) <= cands && Closed(p, locked, cands, base, y)
    requires x.services == base + Provided(p, locked, x.gone) && x.gone <= y
    ensures var z := Sweep(p, locked, x, queue); z.services == base + Provided(p, locked, z.gone) && z.gone <= y
  {
    if queue != [] {
      var n := |queue| - 1;
      Last(queue);
      SweepWithin(p, locked, cands, base, x, queue[..n], y);
      var z := Sweep(p, locked, x, queue[..n]);
      VisitProvides(p, locked, base, z, queue[n]);
      assert z.services <= base + Provided(p, locked, y);
      if Ready(p, locked, z.services, queue[n]) {
        assert Ready(p, locked, base + Provided(p, locked, y), queue[n]);
      }
    }
  }

  lemma {:induction false} PhaseWithin(p: Platform, locked: bool, cands: set<nat>, base: set<nat>, x: State, queue: seq<nat>, y: set<nat>)
    requires Monotone(p) && Fixed(p, locked) && ToSet(queue) <= cands && Closed(p, locked, cands, base, y)
    requires x.services == base + Provided(p, locked, x.gone) && x.gone <= y
    ensures var z := Phase(p, locked, x, queue); z.services == base + Provided(p, locked, z.gone) && z.gone <= y
    decreases |queue|
  {
    hide Monotone;
    hide Fixed;
    hide Closed;
    hide Provided;
    SweepWithin(p, locked, cands, base, x, queue, y);
    var z := Sweep(p, locked, x, queue);
    if z.done != x.done {
      DispatchShortens(p, locked, x, queue);
      KeptFacts(queue, z.gone);
      PhaseWithin(p, locked, cands, base, z, Kept(queue, z.gone), y);
    }
  }

  // Where readiness is monotone and a component always does the same, what a phase removes is the
  // least set of candidates closed under readiness, and the only one; and storage ends with exactly
  // what it provides.
  lemma PhaseIsTheLeastClosedSet(p: Platform, locked: bool, base: set<nat>, done: set<nat>, queue: seq<nat>, y: set<nat>)
    requires Monotone(p) && Fixed(p, locked) && ToSet(queue) !! done
    ensures var z, cands := Phase(p, locked, Fresh(base, done), queue), ToSet(queue);
            && z.services == base + Provided(p, locked, z.gone)
            && (y == z.gone <==>
                  && Closed(p, locked, cands, base, y)
                  && forall other | Closed(p, locked, cands, base, other) :: y <= other)
  {
    var x, cands := Fresh(base, done), ToSet(queue);
    var z := Phase(p, locked, x, queue);
    assert Provided(p, locked, {}) == {};
    PhaseWithin(p, locked, cands, base, x, queue, cands);
    PhaseExhausts(p, locked, x, queue);
    forall other | Closed(p, locked, cands, base, other)
      ensures z.gone <= other
    {
      PhaseWithin(p, locked, cands, base, x, queue, other);
    }
    assert Closed(p, locked, cands, base, z.gone);
  }

  // ---- The dispatcher ---------------------------------------------------------------------

  class DriverContext {
    const p: Platform
    var services: set<nat>
    var locked: bool
    /** The successful runs, in order. */
    ghost var ran: seq<nat>

    constructor (p: Platform, services: set<nat>)
      ensures this.p == p && this.services == services && !locked && ran == []
    {
      this.p, this.services, locked, ran := p, services, false, [];
    }

    /** One pass over the queue: `retain_mut` with `component.run`. */
    method Pass(queue: seq<nat>, ghost gone: set<nat>) returns (kept: seq<nat>, dispatched: bool)
      requires NoDup(queue) && ToSet(queue) !! gone && NoDup(ran) && ToSet(queue) !! ToSet(ran)
      modifies this`services, this`ran
      ensures var x := State(old(services), gone, old(ToSet(ran)));
              var y := Sweep(p, locked, x, queue);
              && services == y.services && ToSet(ran) == y.done && NoDup(ran)
              && kept == Kept(queue, y.gone) && dispatched == (y.done != x.done)
    {
      kept, dispatched := [], false;
      ghost var x := State(services, gone, ToSet(ran));
      for i := 0 to |queue|
        invariant Swept(p, locked, x, queue[..i], services, ran, kept)
        invariant dispatched == (ToSet(ran) != x.done)
      {
        hide *;
        var c := queue[i];
        VisitStep(p, locked, x, queue, i, services, ran, kept);
        match p.run(c, services, locked) {
          case NotReady => kept := kept + [c];
          case Failed =>
          case Added(more) =>
            services := services + more;
            ran := ran + [c];
            dispatched := true;
        }
      }
      assert queue[..|queue|] == queue;
    }

    /** Passes until one runs nothing. */
    method RunPhase(queue: seq<nat>) returns (kept: seq<nat>)
      requires NoDup(queue) && NoDup(ran) && ToSet(queue) !! ToSet(ran)
      modifies this`services, this`ran
      ensures var y := Phase(p, locked, Fresh(old(services), old(ToSet(ran))), queue);
              services == y.services && ToSet(ran) == y.done && NoDup(ran) && kept == Kept(queue, y.gone)
    {
      ghost var gone, result := {}, Phase(p, locked, Fresh(services, ToSet(ran)), queue);
      kept := queue;
      KeptAll(queue, {});
      var dispatched := true;
      while dispatched
        invariant NoDup(kept) && NoDup(ran) && ToSet(kept) !! ToSet(ran) && ToSet(kept) !! gone
        invariant kept == Kept(queue, gone)
        invariant if dispatched then Phase(p, locked, State(services, gone, ToSet(ran)), kept) == result
                  else State(services, gone, ToSet(ran)) == result
        decreases dispatched, |kept|
      {
        ghost var x, before := State(services, gone, ToSet(ran)), kept;
        SweepFacts(p, locked, x, before);
        kept, dispatched := Pass(kept, gone);
        gone := Sweep(p, locked, x, before).gone;
        KeptFacts(before, gone);
        KeptTwice(queue, x.gone, gone);
        if dispatched {
          DispatchShortens(p, locked, x, before);
        }
        forall c | c in ToSet(kept) ensures c !in ToSet(ran) { assert c !in x.done; }
      }
    }

    /** Initialize, dispatch, lock the configs, dispatch what is left. */
    method DispatchPlatform(components: seq<nat>) returns (left: seq<nat>)
      requires NoDup(components) && ran == [] && !locked
      modifies this
      ensures var r := Dispatch(p, old(services), components);
              && services == r.second.services && ToSet(ran) == r.second.done && left == r.left && locked
              && NoDup(ran)
    {
      var queue := [];
      for i := 0 to |components|
        invariant queue == Initialized(p, components[..i])
        invariant ran == [] && services == old(services) && !locked
      {
        assert components[..i + 1][..i] == components[..i];
        if p.initializes(components[i]) {
          queue := queue + [components[i]];
        }
      }
      assert components[..|components|] == components;
      InitializedFacts(p, components);
      assert ToSet([]) == {};
      left := RunPhase(queue);
      ghost var x := Phase(p, false, Fresh(old(services), {}), queue);
      PhaseExhausts(p, false, Fresh(old(services), {}), queue);
      KeptFacts(queue, x.gone);
      locked := true;
      forall c | c in ToSet(left) ensures c !in ToSet(ran) { assert c !in x.gone; }
      left := RunPhase(left);
    }
  }

  /** The pass has swept `done`: storage, log and retained queue are those of the sweep. */
  ghost predicate Swept(p: Platform, locked: bool, x: State, prefix: seq<nat>, services: set<nat>, ran: seq<nat>, kept: seq<nat>) {
    var y := Sweep(p, locked, x, prefix);
    services == y.services && NoDup(ran) && ToSet(ran) == y.done && kept == Kept(prefix, y.gone)
  }

  lemma VisitStep(p: Platform, locked: bool, x: State, queue: seq<nat>, i: nat, services: set<nat>, ran: seq<nat>, kept: seq<nat>)
    requires NoDup(queue) && ToSet(queue) !! x.gone && ToSet(queue) !! x.done
    requires i < |queue| && Swept(p, locked, x, queue[..i], services, ran, kept)
    ensures var c := queue[i];
            match p.run(c, services, locked)
            case NotReady => Swept(p, locked, x, queue[..i + 1], services, ran, kept + [c])
            case Failed => Swept(p, locked, x, queue[..i + 1], services, ran, kept)
            case Added(more) =>
              && Swept(p, locked, x, queue[..i + 1], services + more, ran + [c], kept)
              && ToSet(ran + [c]) != x.done
  {
    var c, prefix, next := queue[i], queue[..i], queue[..i + 1];
    assert next[..i] == prefix && next[i] == c;
    assert c in ToSet(queue);
    Last(next);
    SweepFacts(p, locked, x, prefix);
    assert NoDup(next);
    KeptIgnores(prefix, Sweep(p, locked, x, prefix).gone, c);
    assert kept + [] == kept;
    Push(ran, c);
  }

  // ---- The two phases ---------------------------------------------------------------------

  // Only components that initialize are dispatched; the first phase leaves over only components that
  // are unready while configs are unlocked, the second gets exactly those, and each component is
  // removed by one of the phases or left over at the end.
  lemma DispatchInPhases(p: Platform, services: set<nat>, components: seq<nat>)
    ensures var r := Dispatch(p, services, components);
            var started := set c | c in ToSet(components) && p.initializes(c);
            && r.first.gone <= started && r.second.gone <= started - r.first.gone
            && ToSet(r.left) == started - r.first.gone - r.second.gone
            && r.first.done <= r.first.gone && r.second.done <= r.first.done + r.second.gone
            && (forall c | c in started - r.first.gone :: !Ready(p, false, r.first.services, c))
            && (forall c | c in ToSet(r.left) :: !Ready(p, true, r.second.services, c))
            && services <= r.first.services <= r.second.services
  {
    hide Initialized;
    InitializedFacts(p, components);
    var queue := Initialized(p, components);
    var x := Phase(p, false, Fresh(services, {}), queue);
    var rest := Kept(queue, x.gone);
    PhaseExhausts(p, false, Fresh(services, {}), queue);
    PhaseGrows(p, false, Fresh(services, {}), queue);
    KeptFacts(queue, x.gone);
    PhaseExhausts(p, true, Fresh(x.services, x.done), rest);
    PhaseGrows(p, true, Fresh(x.services, x.done), rest);
    KeptFacts(rest, Phase(p, true, Fresh(x.services, x.done), rest).gone);
    hide Phase;
    hide Kept;
  }

  lemma {:induction false} PhaseGrows(p: Platform, locked: bool, x: State, queue: seq<nat>)
    ensures x.services <= Phase(p, locked, x, queue).services
    decreases |queue|
  {
    var y := Sweep(p, locked, x, queue);
    SweepFacts(p, locked, x, queue);
    if y.done != x.done {
      DispatchShortens(p, locked, x, queue);
      PhaseGrows(p, locked, y, Kept(queue, y.gone));
    }
  }

  // One component at a time: an unready one stays queued and does nothing, a failing one leaves the
  // queue without touching storage, and a successful one leaves it and adds its services.
  lemma SweepByOne(p: Platform, locked: bool, x: State, queue: seq<nat>, c: nat)
    ensures var y, z := Sweep(p, locked, x, queue), Sweep(p, locked, x, queue + [c]);
            match p.run(c, y.services, locked)
            case NotReady => z == y
            case Failed => z == State(y.services, y.gone + {c}, y.done)
            case Added(more) => z == State(y.services + more, y.gone + {c}, y.done + {c})
  {
    assert (queue + [c])[..|queue|] == queue;
  }
}
