/** Connecting every controller: passes over the handle database, which grows as handles are
    connected, until a pass finds nothing new or the passes run out. */
module Connect {
  const CONNECT_ALL_PASSES := 10
  const SKIP_USB_PASSES := 20

  type Handle = nat

  /** The firmware's part: what connecting a handle adds to the database after the connects in
      `history`, which handles are USB host controllers, and whether the n-th enumeration works. */
  datatype Firmware = Firmware(
    uncovers: (seq<Handle>, Handle) -> seq<Handle>,
    isUsbHost: Handle -> bool,
    enumerates: nat -> bool)

  /** `log` are the handles connected, in order; `attempted` those looked at, skipped ones included. */
  datatype State = State(handles: seq<Handle>, attempted: set<Handle>, log: seq<Handle>)

  datatype Ending = Stable | Unstable | Failed

  // ---- Passes on values -------------------------------------------------------------------

  /** One handle of a pass: skipped if seen before or a USB host that is to be left alone. */
  function Visit(fw: Firmware, skipUsb: bool, s: State, h: Handle): State {
    if h in s.attempted then s
    else if skipUsb && fw.isUsbHost(h) then s.(attempted := s.attempted + {h})
    else State(s.handles + fw.uncovers(s.log, h), s.attempted + {h}, s.log + [h])
  }

  function PassOver(fw: Firmware, skipUsb: bool, s: State, snapshot: seq<Handle>): State {
    if snapshot == [] then s
    else Visit(fw, skipUsb, PassOver(fw, skipUsb, s, snapshot[..|snapshot| - 1]), snapshot[|snapshot| - 1])
  }

  /** At most `left` more passes, the next being number `n`. */
  function Passes(fw: Firmware, skipUsb: bool, s: State, n: nat, left: nat): (State, Ending)
    decreases left
  {
    if left == 0 then (s, Unstable)
    else if !fw.enumerates(n) then (s, Failed)
    else
      var t := PassOver(fw, skipUsb, s, s.handles);
      if |t.log| == |s.log| then (t, Stable) else Passes(fw, skipUsb, t, n + 1, left - 1)
  }

  function Start(handles: seq<Handle>): State {
    State(handles, {}, [])
  }

  // ---- The loops --------------------------------------------------------------------------

  /** The handle database and the log of connects. */
  class BootServices {
    const fw: Firmware
    var handles: seq<Handle>
    var log: seq<Handle>

    constructor (fw: Firmware, handles: seq<Handle>)
      ensures this.fw == fw && this.handles == handles && log == []
    {
      this.fw, this.handles, log := fw, handles, [];
    }

    method ConnectController(h: Handle)
      modifies this
      ensures log == old(log) + [h] && handles == old(handles) + fw.uncovers(old(log), h)
    {
      handles := handles + fw.uncovers(log, h);
      log := log + [h];
    }

    /** The shared loop of `connect_all` and `connect_all_skip_usb`. */
    method ConnectPasses(skipUsb: bool, maxPasses: nat) returns (ending: Ending)
      requires log == []
      modifies this
      ensures var r := Passes(fw, skipUsb, Start(old(handles)), 0, maxPasses);
              ending == r.1 && handles == r.0.handles && log == r.0.log
    {
      var attempted: set<Handle> := {};
      ghost var result := Passes(fw, skipUsb, Start(handles), 0, maxPasses);
      for n := 0 to maxPasses
        invariant result == Passes(fw, skipUsb, State(handles, attempted, log), n, maxPasses - n)
      {
        if !fw.enumerates(n) {
          return Failed;
        }
        var snapshot := handles;
        var newly := 0;
        ghost var before := State(handles, attempted, log);
        for i := 0 to |snapshot|
          invariant State(handles, attempted, log) == PassOver(fw, skipUsb, before, snapshot[..i])
          invariant |log| == |before.log| + newly
        {
          assert snapshot[..i + 1][..i] == snapshot[..i];
          var h := snapshot[i];
          if h in attempted {
            continue;
          }
          attempted := attempted + {h};
          if skipUsb && fw.isUsbHost(h) {
            continue;
          }
          newly := newly + 1;
          ConnectController(h);
        }
        assert snapshot[..|snapshot|] == snapshot;
        if newly == 0 {
          return Stable;
        }
      }
      return Unstable;
    }

    method ConnectAll() returns (ending: Ending)
      requires log == []
      modifies this
      ensures var r := Passes(fw, false, Start(old(handles)), 0, 10);
              ending == r.1 && handles == r.0.handles && log == r.0.log
    {
      ending := ConnectPasses(false, CONNECT_ALL_PASSES);
    }

    method ConnectAllSkipUsb() returns (ending: Ending)
      requires log == []
      modifies this
      ensures var r := Passes(fw, true, Start(old(handles)), 0, 20);
              ending == r.1 && handles == r.0.handles && log == r.0.log
    {
      ending := ConnectPasses(true, SKIP_USB_PASSES);
    }
  }

  // ---- What every run keeps ---------------------------------------------------------------

  /** Each handle connected at most once, only handles of the database, no USB host when skipping,
      and everything attempted was connected or skipped. */
  ghost predicate Sound(fw: Firmware, skipUsb: bool, s: State) {
    && (forall i, j | 0 <= i < j < |s.log| :: s.log[i] != s.log[j])
    && (forall i | 0 <= i < |s.log| :: s.log[i] in s.attempted && s.log[i] in s.handles)
    && (skipUsb ==> forall i | 0 <= i < |s.log| :: !fw.isUsbHost(s.log[i]))
    && (forall h | h in s.attempted :: h in s.log || (skipUsb && fw.isUsbHost(h)))
  }

  lemma VisitIsSound(fw: Firmware, skipUsb: bool, s: State, h: Handle)
    requires Sound(fw, skipUsb, s) && h in s.handles
    ensures Sound(fw, skipUsb, Visit(fw, skipUsb, s, h))
  {
    var t := Visit(fw, skipUsb, s, h);
    if t.log != s.log {
      assert t.log[|s.log|] == h;
      forall x | x in t.attempted ensures x in t.log || (skipUsb && fw.isUsbHost(x)) {
        if x in s.log {
          var i :| 0 <= i < |s.log| && s.log[i] == x;
          assert t.log[i] == x;
        }
      }
    }
  }

  /** What a pass over `snapshot` does: it only adds, attempts the whole snapshot, and if it
      connects nothing leaves the database as it was. */
  ghost predicate Passed(s: State, t: State, snapshot: seq<Handle>) {
    && s.handles <= t.handles && s.log <= t.log && s.attempted <= t.attempted
    && (forall i | 0 <= i < |snapshot| :: snapshot[i] in t.attempted)
    && (|t.log| == |s.log| ==> t.handles == s.handles)
  }

  lemma VisitPasses(fw: Firmware, skipUsb: bool, s: State, h: Handle)
    ensures Passed(s, Visit(fw, skipUsb, s, h), [h])
  {
  }

  lemma {:induction false} PassIsSound(fw: Firmware, skipUsb: bool, s: State, snapshot: seq<Handle>)
    requires Sound(fw, skipUsb, s) && forall i | 0 <= i < |snapshot| :: snapshot[i] in s.handles
    ensures Sound(fw, skipUsb, PassOver(fw, skipUsb, s, snapshot))
    ensures Passed(s, PassOver(fw, skipUsb, s, snapshot), snapshot)
    decreases |snapshot|
  {
    hide Sound;
    hide Visit;
    if snapshot != [] {
      var n := |snapshot| - 1;
      var before := snapshot[..n];
      PassIsSound(fw, skipUsb, s, before);
      var u := PassOver(fw, skipUsb, s, before);
      VisitPasses(fw, skipUsb, u, snapshot[n]);
      assert [snapshot[n]][0] == snapshot[n];
      VisitIsSound(fw, skipUsb, u, snapshot[n]);
      assert forall i | 0 <= i < n :: snapshot[i] == before[i];
    }
  }

  // Over any firmware: no handle is connected twice, a USB host never when skipping; and when the
  // passes end because one found nothing new, every handle in the database has been connected or
  // deliberately skipped.
  lemma {:induction false} PassesAreSound(fw: Firmware, skipUsb: bool, s: State, n: nat, left: nat)
    requires Sound(fw, skipUsb, s)
    ensures var (t, ending) := Passes(fw, skipUsb, s, n, left);
            && Sound(fw, skipUsb, t)
            && (ending == Stable ==>
                  forall i | 0 <= i < |t.handles| :: t.handles[i] in t.log || (skipUsb && fw.isUsbHost(t.handles[i])))
    decreases left
  {
    hide PassOver;
    if left > 0 && fw.enumerates(n) {
      PassIsSound(fw, skipUsb, s, s.handles);
      var t := PassOver(fw, skipUsb, s, s.handles);
      if |t.log| != |s.log| {
        PassesAreSound(fw, skipUsb, t, n + 1, left - 1);
      }
    }
  }

  // ---- When the passes suffice ------------------------------------------------------------

  /** Discovery in layers: whatever connecting a handle adds lies in a deeper layer than the handle,
      and no layer is deeper than `depth`. */
  ghost predicate Layered(fw: Firmware, layer: Handle -> nat, depth: nat) {
    forall history: seq<Handle>, h: Handle, c: Handle | c in fw.uncovers(history, h) :: layer(h) < layer(c) <= depth
  }

  /** Everything not yet attempted lies at layer `k` or deeper, and nothing below `depth`. */
  ghost predicate Frontier(s: State, layer: Handle -> nat, depth: nat, k: nat) {
    forall h | h in s.handles :: layer(h) <= depth && (h !in s.attempted ==> k <= layer(h))
  }

  lemma {:induction false} PassAdvances(fw: Firmware, skipUsb: bool, s: State, snapshot: seq<Handle>,
                                        layer: Handle -> nat, depth: nat, k: nat)
    requires Layered(fw, layer, depth) && Frontier(s, layer, depth, k)
    requires forall i | 0 <= i < |snapshot| :: snapshot[i] in s.handles
    ensures var t := PassOver(fw, skipUsb, s, snapshot);
            forall h | h in t.handles ::
              layer(h) <= depth && (h !in t.attempted ==> (h in s.handles && h !in snapshot) || k < layer(h))
    ensures forall h | h in PassOver(fw, skipUsb, s, snapshot).attempted :: h in s.attempted || h in snapshot
    ensures s.attempted <= PassOver(fw, skipUsb, s, snapshot).attempted
    ensures (forall h | h in snapshot :: h in s.attempted) ==> PassOver(fw, skipUsb, s, snapshot) == s
    decreases |snapshot|
  {
    if snapshot != [] {
      var n := |snapshot| - 1;
      var before, h := snapshot[..n], snapshot[n];
      assert snapshot == before + [h];
      PassAdvances(fw, skipUsb, s, before, layer, depth, k);
      var u := PassOver(fw, skipUsb, s, before);
      var t := Visit(fw, skipUsb, u, h);
      if h !in u.attempted {
        assert h !in s.attempted && k <= layer(h);
        assert forall c | c in fw.uncovers(u.log, h) :: k < layer(c) <= depth;
      }
    }
  }

  // Discovery that is `depth` + 1 layers deep stabilises whenever the limit leaves one pass more
  // than there are layers, which only finds that nothing is new.
  lemma {:induction false} ShallowDiscoveryStabilises(fw: Firmware, skipUsb: bool, s: State, n: nat, left: nat,
                                                      layer: Handle -> nat, depth: nat)
    requires Layered(fw, layer, depth) && Frontier(s, layer, depth, n)
    requires forall i | n <= i < n + left :: fw.enumerates(i)
    requires depth + 1 < n + left && left > 0
    ensures Passes(fw, skipUsb, s, n, left).1 == Stable
    decreases left
  {
    PassAdvances(fw, skipUsb, s, s.handles, layer, depth, n);
    var t := PassOver(fw, skipUsb, s, s.handles);
    if n > depth {
      forall h | h in s.handles ensures h in s.attempted {
        assert layer(h) <= depth;
      }
      assert t == s;
    } else if |t.log| != |s.log| {
      assert Frontier(t, layer, depth, n + 1);
      ShallowDiscoveryStabilises(fw, skipUsb, t, n + 1, left - 1, layer, depth);
    }
  }

  ghost predicate OneDeeper(fw: Firmware, layer: Handle -> nat, depth: nat) {
    forall history: seq<Handle>, h: Handle, c: Handle | c in fw.uncovers(history, h) ::
      layer(c) == layer(h) + 1 && layer(c) <= depth
  }

  lemma ChildrenOneDeeper(fw: Firmware, layer: Handle -> nat, depth: nat, history: seq<Handle>, h: Handle)
    requires OneDeeper(fw, layer, depth)
    ensures forall c | c in fw.uncovers(history, h) :: layer(c) == layer(h) + 1 && layer(c) <= depth
  {
  }

  /** Discovery in exact layers: connecting a handle adds only handles one layer deeper, down to
      `depth`, and each handle of the spine, one a layer, adds the next. */
  ghost predicate ExactLayers(fw: Firmware, skipUsb: bool, layer: Handle -> nat, depth: nat, spine: nat -> Handle) {
    && OneDeeper(fw, layer, depth)
    && (forall k: nat | k <= depth :: layer(spine(k)) == k && !(skipUsb && fw.isUsbHost(spine(k))))
    && (forall history: seq<Handle>, k: nat | k < depth :: spine(k + 1) in fw.uncovers(history, spine(k)))
  }

  /** Before pass `n` the database holds layers up to `n`, of which exactly layer `n` is still to be
      attempted, and the spine as far as that. */
  ghost predicate ExactFrontier(s: State, layer: Handle -> nat, depth: nat, spine: nat -> Handle, n: nat) {
    && (forall h | h in s.handles :: layer(h) <= depth && layer(h) <= n && (h in s.attempted <==> layer(h) < n))
    && (forall h | h in s.attempted :: layer(h) < n)
    && (n <= depth ==> spine(n) in s.handles)
  }

  lemma {:induction false} ExactPass(fw: Firmware, skipUsb: bool, s: State, snapshot: seq<Handle>,
                                     layer: Handle -> nat, depth: nat, spine: nat -> Handle, n: nat)
    requires ExactLayers(fw, skipUsb, layer, depth, spine) && ExactFrontier(s, layer, depth, spine, n)
    requires forall i | 0 <= i < |snapshot| :: snapshot[i] in s.handles
    ensures var u := PassOver(fw, skipUsb, s, snapshot);
            && s.handles <= u.handles && |s.log| <= |u.log|
            && (forall h | h in u.handles :: h in s.handles || layer(h) == n + 1 <= depth)
            && (forall h | h in s.handles :: h in u.attempted <==> h in s.attempted || h in snapshot)
            && (forall h | h in u.attempted :: h in s.attempted || h in snapshot)
            && (n <= depth && spine(n) in snapshot ==> |s.log| < |u.log| && (n < depth ==> spine(n + 1) in u.handles))
    decreases |snapshot|
  {
    if snapshot != [] {
      var m := |snapshot| - 1;
      var before, h := snapshot[..m], snapshot[m];
      assert snapshot == before + [h];
      ExactPass(fw, skipUsb, s, before, layer, depth, spine, n);
      hide OneDeeper;
      var u := PassOver(fw, skipUsb, s, before);
      assert h in s.handles;
      if h !in u.attempted {
        assert layer(h) == n;
        ChildrenOneDeeper(fw, layer, depth, u.log, h);
        if n < depth && h == spine(n) {
          assert spine(n + 1) in fw.uncovers(u.log, h);
        }
      }
    }
  }

  lemma ExactAdvance(fw: Firmware, skipUsb: bool, s: State, layer: Handle -> nat, depth: nat, spine: nat -> Handle, n: nat)
    requires ExactLayers(fw, skipUsb, layer, depth, spine) && ExactFrontier(s, layer, depth, spine, n)
    ensures var t := PassOver(fw, skipUsb, s, s.handles);
            if n <= depth then |t.log| > |s.log| && ExactFrontier(t, layer, depth, spine, n + 1) else t == s
  {
    ExactPass(fw, skipUsb, s, s.handles, layer, depth, spine, n);
    hide PassOver;
    hide OneDeeper;
    if n > depth {
      AlreadySeen(fw, skipUsb, s, s.handles);
    } else {
      var t := PassOver(fw, skipUsb, s, s.handles);
      forall h | h in t.handles
        ensures layer(h) <= depth && layer(h) <= n + 1 && (h in t.attempted <==> layer(h) < n + 1)
      {
        if h !in s.handles { assert layer(h) == n + 1; }
      }
    }
  }

  // On such firmware the limit suffices exactly when it leaves one pass more than there are layers.
  lemma {:induction false} LayersNeedOnePassMore(fw: Firmware, skipUsb: bool, s: State, n: nat, left: nat,
                                                 layer: Handle -> nat, depth: nat, spine: nat -> Handle)
    requires ExactLayers(fw, skipUsb, layer, depth, spine) && ExactFrontier(s, layer, depth, spine, n)
    requires forall i | n <= i < n + left :: fw.enumerates(i)
    ensures Passes(fw, skipUsb, s, n, left).1 == Stable <==> left > 0 && depth + 2 <= n + left
    decreases left
  {
    if left > 0 {
      ExactAdvance(fw, skipUsb, s, layer, depth, spine, n);
      if n <= depth {
        hide ExactLayers;
        hide ExactFrontier;
        var t := PassOver(fw, skipUsb, s, s.handles);
        LayersNeedOnePassMore(fw, skipUsb, t, n + 1, left - 1, layer, depth, spine);
      }
    }
  }

  /** A chain: handle 0 at first, and connecting handle `h` uncovers `h` + 1, up to `last`. */
  ghost predicate Chain(fw: Firmware, last: nat) {
    && (forall history: seq<Handle>, h: Handle :: fw.uncovers(history, h) == if h < last then [h + 1] else [])
    && (forall n: nat :: fw.enumerates(n))
    && (forall h: Handle :: !fw.isUsbHost(h))
  }

  function UpTo(n: nat): (s: seq<Handle>)
    ensures |s| == n && forall i | 0 <= i < n :: s[i] == i
  {
    seq(n, i requires 0 <= i < n => i)
  }

  function Below(n: nat): (s: set<Handle>)
    ensures forall h: Handle :: h in s <==> h < n
  {
    if n == 0 then {} else Below(n - 1) + {n - 1}
  }

  /** The state at the start of pass `n` of a chain. */
  function ChainState(last: nat, n: nat): State {
    if n <= last then State(UpTo(n + 1), Below(n), UpTo(n)) else State(UpTo(last + 1), Below(last + 1), UpTo(last + 1))
  }

  lemma ChainPass(fw: Firmware, skipUsb: bool, last: nat, n: nat)
    requires Chain(fw, last)
    ensures PassOver(fw, skipUsb, ChainState(last, n), ChainState(last, n).handles) == ChainState(last, n + 1)
  {
    var s := ChainState(last, n);
    if n > last {
      AlreadySeen(fw, skipUsb, s, UpTo(last + 1));
    } else {
      AlreadySeen(fw, skipUsb, s, UpTo(n));
      assert s.handles[..n] == UpTo(n) && s.handles[n] == n;
      assert PassOver(fw, skipUsb, s, s.handles) == Visit(fw, skipUsb, s, n);
      ChainVisit(fw, skipUsb, last, n);
    }
  }

  lemma ChainVisit(fw: Firmware, skipUsb: bool, last: nat, n: nat)
    requires Chain(fw, last) && n <= last
    ensures Visit(fw, skipUsb, ChainState(last, n), n) == ChainState(last, n + 1)
  {
    assert UpTo(n) + [n] == UpTo(n + 1);
    if n < last {
      assert UpTo(n + 1) + [n + 1] == UpTo(n + 2);
    } else {
      assert UpTo(n + 1) + [] == UpTo(n + 1);
    }
    assert Below(n) + {n} == Below(n + 1);
  }

  lemma {:induction false} AlreadySeen(fw: Firmware, skipUsb: bool, s: State, snapshot: seq<Handle>)
    requires forall i | 0 <= i < |snapshot| :: snapshot[i] in s.attempted
    ensures PassOver(fw, skipUsb, s, snapshot) == s
    decreases |snapshot|
  {
    if snapshot != [] {
      AlreadySeen(fw, skipUsb, s, snapshot[..|snapshot| - 1]);
    }
  }

  // The bound is tight: a chain of `last` + 1 layers stabilises exactly when there are at least
  // `last` + 2 passes.
  lemma {:induction false} ChainNeedsOnePassMore(fw: Firmware, skipUsb: bool, last: nat, n: nat, left: nat)
    requires Chain(fw, last)
    ensures Passes(fw, skipUsb, ChainState(last, n), n, left).1 == Stable <==> left > 0 && last + 2 <= n + left
    decreases left
  {
    hide UpTo;
    hide Below;
    hide PassOver;
    if left > 0 {
      ChainPass(fw, skipUsb, last, n);
      if n <= last {
        ChainNeedsOnePassMore(fw, skipUsb, last, n + 1, left - 1);
      }
    }
  }

  // So the ten passes of a full connect are one too few for ten layers.
  lemma TenLayersDoNotStabilise(fw: Firmware)
    requires Chain(fw, 9)
    ensures Passes(fw, false, Start([0]), 0, CONNECT_ALL_PASSES).1 != Stable
  {
    assert UpTo(1) == [0] && UpTo(0) == [];
    assert ChainState(9, 0) == Start([0]);
    ChainNeedsOnePassMore(fw, false, 9, 0, CONNECT_ALL_PASSES);
  }

  // ---- How the passes end -----------------------------------------------------------------

  // A run that fails was refused an enumeration, the first one refused; one that is unstable connected
  // something in every pass; and until then every enumeration worked.
  lemma {:induction false} EndingIsExact(fw: Firmware, skipUsb: bool, s: State, n: nat, left: nat)
    requires Sound(fw, skipUsb, s)
    ensures var (t, ending) := Passes(fw, skipUsb, s, n, left);
            match ending
            case Failed => exists k | n <= k < n + left :: !fw.enumerates(k) && forall i | n <= i < k :: fw.enumerates(i)
            case Unstable => |t.log| >= |s.log| + left && forall i | n <= i < n + left :: fw.enumerates(i)
            case Stable => left > 0 && fw.enumerates(n) && |t.log| >= |s.log|
    decreases left
  {
    hide PassOver;
    if left > 0 && fw.enumerates(n) {
      PassIsSound(fw, skipUsb, s, s.handles);
      var t := PassOver(fw, skipUsb, s, s.handles);
      if |t.log| != |s.log| {
        EndingIsExact(fw, skipUsb, t, n + 1, left - 1);
      }
    }
  }

  // A pass over handles that are all new connects them in the order of the enumeration.
  lemma {:induction false} PassInOrder(fw: Firmware, skipUsb: bool, s: State, snapshot: seq<Handle>)
    requires forall i, j | 0 <= i < j < |snapshot| :: snapshot[i] != snapshot[j]
    requires forall i | 0 <= i < |snapshot| :: snapshot[i] !in s.attempted && !(skipUsb && fw.isUsbHost(snapshot[i]))
    ensures PassOver(fw, skipUsb, s, snapshot).log == s.log + snapshot
    ensures forall h | h in PassOver(fw, skipUsb, s, snapshot).attempted :: h in s.attempted || h in snapshot
    decreases |snapshot|
  {
    if snapshot == [] {
      assert s.log + snapshot == s.log;
    } else {
      var n := |snapshot| - 1;
      PassInOrder(fw, skipUsb, s, snapshot[..n]);
      assert snapshot == snapshot[..n] + [snapshot[n]];
    }
  }
}
