/** What a boot attempt does, read off the trace of a whole run: each attempt is followed by the
    load, the watchdog, the start and the disarming as far as firmware lets it get, and by nothing
    else. */
module BootTrace {
  import opened Bytes
  import opened Efi
  import opened DevicePath
  import opened ShortForm
  import opened BootSource
  import opened BootFlow

  /** An event that only an attempt in progress causes. */
  predicate InProgress(e: Event) {
    e.Load? || e.Watchdog? || e.Start?
  }

  /** Nothing of an attempt stands at `j`. */
  predicate EndsAt(es: seq<Event>, j: nat) {
    j < |es| ==> !InProgress(es[j])
  }

  /** The attempt at `i` got exactly as far as the answer `a` allows: no load unless its path
      resolves, no watchdog unless the image was loaded, no start unless the watchdog was armed, and
      the watchdog disarmed once the image returns. */
  ghost predicate Obeys(es: seq<Event>, i: nat, a: BootAnswer)
    requires i < |es| && es[i].Attempt?
  {
    match if IsPartial(es[i].path) then Expand(es[i].path, a.handles) else Ok(es[i].path)
    case Err(_) => EndsAt(es, i + 1)
    case Ok(full) =>
      && i + 1 < |es| && es[i + 1] == Load(full)
      && if !a.load then EndsAt(es, i + 2)
         else
           && i + 2 < |es| && es[i + 2] == Watchdog(300)
           && if !a.watchdog then EndsAt(es, i + 3)
              else i + 4 < |es| && es[i + 3] == Start(full) && es[i + 4] == Watchdog(0) && EndsAt(es, i + 5)
  }

  /** Every load, watchdog setting and start directly continues an attempt. */
  ghost predicate Continues(es: seq<Event>) {
    forall i | 0 <= i < |es| && InProgress(es[i]) :: 0 < i && (es[i - 1].Attempt? || InProgress(es[i - 1]))
  }

  /** The attempts of `es`, the first being number `k`, all obey the answers firmware gives them. */
  ghost predicate Lawful(env: Env, es: seq<Event>, k: nat) {
    && Continues(es)
    && forall i | 0 <= i < |es| && es[i].Attempt? :: Obeys(es, i, env.boot(k + |Attempts(es[..i])|))
  }

  // ---- Traces compose ---------------------------------------------------------------------

  lemma ObeysBefore(a: seq<Event>, b: seq<Event>, i: nat, answer: BootAnswer)
    requires i < |a| && a[i].Attempt? && Obeys(a, i, answer) && Continues(b)
    ensures Obeys(a + b, i, answer)
  {
    hide Expand;
    hide IsPartial;
    var es := a + b;
    assert forall j | 0 <= j < |a| :: es[j] == a[j];
    assert b != [] ==> es[|a|] == b[0] && !InProgress(b[0]);
  }

  lemma ObeysAfter(a: seq<Event>, b: seq<Event>, i: nat, answer: BootAnswer)
    requires i < |b| && b[i].Attempt? && Obeys(b, i, answer)
    ensures Obeys(a + b, |a| + i, answer)
  {
    hide Expand;
    hide IsPartial;
    var es := a + b;
    assert forall j | 0 <= j < |b| :: es[|a| + j] == b[j];
  }

  lemma ContinuesAppend(a: seq<Event>, b: seq<Event>)
    requires Continues(a) && Continues(b)
    ensures Continues(a + b)
  {
    hide InProgress;
    var es := a + b;
    forall i | 0 <= i < |es| && InProgress(es[i])
      ensures 0 < i && (es[i - 1].Attempt? || InProgress(es[i - 1]))
    {
      if i < |a| { assert InProgress(a[i]); } else { assert InProgress(b[i - |a|]); }
    }
  }

  lemma LawfulAppend(env: Env, a: seq<Event>, b: seq<Event>, k: nat)
    requires Lawful(env, a, k) && Lawful(env, b, k + |Attempts(a)|)
    ensures Lawful(env, a + b, k)
  {
    hide Obeys;
    hide Attempts;
    hide Continues;
    ContinuesAppend(a, b);
    var es := a + b;
    forall i | 0 <= i < |es| && es[i].Attempt?
      ensures Obeys(es, i, env.boot(k + |Attempts(es[..i])|))
    {
      if i < |a| {
        assert es[..i] == a[..i];
        ObeysBefore(a, b, i, env.boot(k + |Attempts(a[..i])|));
      } else {
        AttemptInSecond(env, a, b, i - |a|, k);
      }
    }
  }

  lemma AttemptInSecond(env: Env, a: seq<Event>, b: seq<Event>, j: nat, k: nat)
    requires Lawful(env, b, k + |Attempts(a)|) && j < |b| && b[j].Attempt?
    ensures Obeys(a + b, |a| + j, env.boot(k + |Attempts((a + b)[..|a| + j])|))
  {
    hide Obeys;
    hide Attempts;
    hide Continues;
    assert (a + b)[..|a| + j] == a + b[..j];
    AttemptsAppend(a, b[..j]);
    assert Obeys(b, j, env.boot(k + |Attempts(a)| + |Attempts(b[..j])|));
    ObeysAfter(a, b, j, env.boot(k + |Attempts(a)| + |Attempts(b[..j])|));
  }

  lemma QuietLawful(env: Env, es: seq<Event>, k: nat)
    requires forall i | 0 <= i < |es| :: !es[i].Attempt? && !InProgress(es[i])
    ensures Lawful(env, es, k) && Attempts(es) == []
  {
    NoAttempts(es);
  }

  // Events that belong to no attempt may stand in front.
  lemma QuietBefore(env: Env, a: seq<Event>, b: seq<Event>, k: nat)
    requires forall i | 0 <= i < |a| :: !a[i].Attempt? && !InProgress(a[i])
    requires Lawful(env, b, k)
    ensures Lawful(env, a + b, k) && Attempts(a + b) == Attempts(b)
  {
    hide Attempts;
    hide Obeys;
    QuietLawful(env, a, k);
    LawfulAppend(env, a, b, k);
    AttemptsAppend(a, b);
  }

  // ---- From one attempt to a run ----------------------------------------------------------

  lemma BootEventsObey(path: Path, a: BootAnswer)
    ensures var es := BootEvents(path, a);
            && es != [] && es[0] == Attempt(path) && Obeys(es, 0, a) && Continues(es)
            && forall i | 0 < i < |es| :: InProgress(es[i])
  {
    hide Expand;
    hide IsPartial;
  }

  lemma OneAttemptLawful(env: Env, path: Path, k: nat, announce: bool)
    ensures Lawful(env, OneAttempt(env, path, k, announce), k)
  {
    hide BootEvents;
    hide Obeys;
    hide Attempts;
    var es := BootEvents(path, env.boot(k));
    BootEventsObey(path, env.boot(k));
    NoAttempts(es[..0]);
    assert Lawful(env, es, k);
    QuietBefore(env, if announce then [ReadyToBoot] else [], es, k);
  }

  lemma {:induction false} AttemptAllLawful(env: Env, paths: seq<Path>, k: nat, announce: bool)
    ensures Lawful(env, AttemptAll(env, paths, k, announce), k)
    ensures |Attempts(AttemptAll(env, paths, k, announce))| == |paths|
    decreases |paths|
  {
    hide OneAttempt;
    hide Lawful;
    if paths == [] {
      QuietLawful(env, AttemptAll(env, paths, k, announce), k);
    } else {
      var n := |paths| - 1;
      AttemptAllLawful(env, paths[..n], k, announce);
      OneAttemptLawful(env, paths[n], k + n, announce);
      LawfulAppend(env, AttemptAll(env, paths[..n], k, announce), OneAttempt(env, paths[n], k + n, announce), k);
    }
    AttemptAllAttempts(env, paths, k, announce);
  }

  lemma HotkeyLawful(c: Config, env: Env)
    ensures Lawful(env, HotkeyEvents(c, env), 0)
  {
    hide HotkeyPaths;
    hide AttemptAll;
    hide Lawful;
    if env.hotkey.NoHotkey? {
      QuietLawful(env, HotkeyEvents(c, env), 0);
    } else {
      var paths := HotkeyPaths(c, env);
      AttemptAllLawful(env, paths, 0, true);
      AttemptAllLawful(env, paths, 0, false);
      QuietBefore(env, [ConnectAll], AttemptAll(env, paths, 0, false), 0);
      QuietBefore(env, [ReadyToBoot], [ConnectAll] + AttemptAll(env, paths, 0, false), 0);
      QuietBefore(env, [ConnectAll, DiscoverConsoles], HotkeyAttempt(c, env), 0);
    }
  }

  lemma PassLawful(c: Config, env: Env, pass: nat, k: nat)
    ensures Lawful(env, PassEvents(c, env, pass, k), k)
  {
    hide AttemptAll;
    hide OptionPaths;
    hide FallbackPaths;
    hide Lawful;
    var connect: seq<Event> := if pass == 1 then [ConnectAll] else [];
    var options, more := OptionPaths(c, env, pass), FallbackPaths(c, env, pass);
    AttemptAllLawful(env, options, k, true);
    AttemptAllLawful(env, [c.mainOs], k, true);
    AttemptAllLawful(env, more, k + 1, false);
    LawfulAppend(env, AttemptAll(env, [c.mainOs], k, true), AttemptAll(env, more, k + 1, false), k);
    QuietBefore(env, connect, AttemptAll(env, options, k, true), k);
    QuietBefore(env, connect, NoOptionEvents(c, env, pass, k), k);
  }

  lemma LastResortLawful(c: Config, env: Env, k: nat)
    ensures Lawful(env, LastResortEvents(c, env, k), k)
  {
    hide AttemptAll;
    hide Lawful;
    var paths := LastResortPaths(c, env);
    AttemptAllLawful(env, paths, k, false);
    QuietLawful(env, [], k);
    QuietBefore(env, [ConnectAll], AttemptAll(env, paths, k, false), k);
  }

  lemma BootPhaseLawful(c: Config, env: Env)
    ensures Lawful(env, BootPhase(c, env), 0)
  {
    hide HotkeyEvents;
    hide PassEvents;
    hide LastResortEvents;
    hide HotkeyPaths;
    hide PassPaths;
    hide Attempts;
    hide Lawful;
    var n0 := |HotkeyPaths(c, env)|;
    var n1 := n0 + |PassPaths(c, env, 0)|;
    var n2 := n1 + |PassPaths(c, env, 1)|;
    var h, p0, p1 := HotkeyEvents(c, env), PassEvents(c, env, 0, n0), PassEvents(c, env, 1, n1);
    HotkeyFacts(c, env);
    PassFacts(c, env, 0, n0);
    PassFacts(c, env, 1, n1);
    HotkeyLawful(c, env);
    PassLawful(c, env, 0, n0);
    PassLawful(c, env, 1, n1);
    LastResortLawful(c, env, n2);
    LawfulAppend(env, h, p0, 0);
    AttemptsAppend(h, p0);
    LawfulAppend(env, h + p0, p1, 0);
    AttemptsAppend(h + p0, p1);
    LawfulAppend(env, h + p0 + p1, LastResortEvents(c, env, n2), 0);
  }

  lemma RunLawful(c: Config, env: Env)
    ensures Lawful(env, RunEvents(c, env), 0)
  {
    hide PreLock;
    hide BootPhase;
    hide Lawful;
    PreLockIsPreLock(c, env);
    BootPhaseLawful(c, env);
    var before := PreLock(c, env) + LockEvents(env);
    assert forall i | 0 <= i < |before| :: IsPreLock(before[i]) || IsLock(before[i]);
    QuietLawful(env, [], 0);
    QuietBefore(env, before, if Locked(env) then BootPhase(c, env) else [], 0);
  }

  // The attempt law. Let attempt number `k` of a run stand at position `i`, and `full` be what its
  // path resolves to. An unresolved path is followed by no load; a resolved one is loaded next; a
  // refused load arms no watchdog; a refused watchdog starts nothing; and otherwise the watchdog is
  // armed for 300 seconds, the image is started, and the watchdog is disarmed. Nothing else in the
  // run loads, starts or touches the watchdog.
  lemma AttemptLaw(c: Config, env: Env, i: nat, k: nat)
    requires var es := RunEvents(c, env); i < |es| && es[i].Attempt? && k == |Attempts(es[..i])|
    ensures var es := RunEvents(c, env);
            var a := env.boot(k);
            var path := es[i].path;
            match if IsPartial(path) then Expand(path, a.handles) else Ok(path)
            case Err(_) => i + 1 < |es| ==> !es[i + 1].Load? && !es[i + 1].Watchdog? && !es[i + 1].Start?
            case Ok(full) =>
              && i + 1 < |es| && es[i + 1] == Load(full)
              && (!a.load && i + 2 < |es| ==> !es[i + 2].Load? && !es[i + 2].Watchdog? && !es[i + 2].Start?)
              && (a.load ==> i + 2 < |es| && es[i + 2] == Watchdog(300))
              && (a.load && !a.watchdog && i + 3 < |es| ==> !es[i + 3].Load? && !es[i + 3].Watchdog? && !es[i + 3].Start?)
              && (a.load && a.watchdog ==> i + 4 < |es| && es[i + 3] == Start(full) && es[i + 4] == Watchdog(0))
              && (a.load && a.watchdog && i + 5 < |es| ==> !es[i + 5].Load? && !es[i + 5].Watchdog? && !es[i + 5].Start?)
    ensures forall j | 0 <= j < |RunEvents(c, env)| ::
              var e := RunEvents(c, env)[j];
              e.Load? || e.Watchdog? || e.Start? ==>
                0 < j && var d := RunEvents(c, env)[j - 1]; d.Attempt? || d.Load? || d.Watchdog? || d.Start?
  {
    hide RunEvents;
    hide Expand;
    hide IsPartial;
    hide Attempts;
    RunLawful(c, env);
    var es := RunEvents(c, env);
    assert Obeys(es, i, env.boot(0 + |Attempts(es[..i])|));
  }

  // ---- A run without the inside of its attempts -------------------------------------------

  /** The events of a trace that are not the inside of an attempt. */
  ghost function Outline(es: seq<Event>): seq<Event> {
    if es == [] then []
    else Outline(es[..|es| - 1]) + if InProgress(es[|es| - 1]) then [] else [es[|es| - 1]]
  }

  lemma {:induction false} OutlineAppend(a: seq<Event>, b: seq<Event>)
    ensures Outline(a + b) == Outline(a) + Outline(b)
    decreases |b|
  {
    if b == [] {
      assert a + b == a;
    } else {
      var n := |b| - 1;
      assert (a + b)[..|a + b| - 1] == a + b[..n];
      OutlineAppend(a, b[..n]);
    }
  }

  lemma {:induction false} QuietOutline(es: seq<Event>)
    requires forall i | 0 <= i < |es| :: !InProgress(es[i])
    ensures Outline(es) == es
  {
    if es != [] {
      var n := |es| - 1;
      QuietOutline(es[..n]);
      assert es == es[..n] + [es[n]];
    }
  }

  lemma {:induction false} InsideOutline(es: seq<Event>)
    requires forall i | 0 <= i < |es| :: InProgress(es[i])
    ensures Outline(es) == []
  {
    if es != [] {
      InsideOutline(es[..|es| - 1]);
    }
  }

  /** Attempts in order, each announced by its own ReadyToBoot. */
  ghost function Announced(paths: seq<Path>): (es: seq<Event>)
    ensures |es| == 2 * |paths|
    ensures forall i | 0 <= i < |paths| :: es[2 * i] == ReadyToBoot && es[2 * i + 1] == Attempt(paths[i])
  {
    if paths == [] then []
    else Announced(paths[..|paths| - 1]) + [ReadyToBoot, Attempt(paths[|paths| - 1])]
  }

  /** Attempts in order that no ReadyToBoot announces. */
  ghost function Unannounced(paths: seq<Path>): (es: seq<Event>)
    ensures |es| == |paths| && forall i | 0 <= i < |paths| :: es[i] == Attempt(paths[i])
  {
    if paths == [] then [] else Unannounced(paths[..|paths| - 1]) + [Attempt(paths[|paths| - 1])]
  }

  lemma OneAttemptOutline(env: Env, path: Path, k: nat, announce: bool)
    ensures Outline(OneAttempt(env, path, k, announce))
         == if announce then [ReadyToBoot, Attempt(path)] else [Attempt(path)]
  {
    hide BootEvents;
    hide Outline;
    var es := BootEvents(path, env.boot(k));
    BootEventsObey(path, env.boot(k));
    var before: seq<Event> := if announce then [ReadyToBoot, Attempt(path)] else [Attempt(path)];
    assert OneAttempt(env, path, k, announce) == before + es[1..];
    QuietOutline(before);
    InsideOutline(es[1..]);
    OutlineAppend(before, es[1..]);
  }

  lemma {:induction false} AttemptAllOutline(env: Env, paths: seq<Path>, k: nat, announce: bool)
    ensures Outline(AttemptAll(env, paths, k, announce)) == if announce then Announced(paths) else Unannounced(paths)
    decreases |paths|
  {
    hide OneAttempt;
    hide Outline;
    if paths == [] {
      QuietOutline([]);
    } else {
      var n := |paths| - 1;
      AttemptAllOutline(env, paths[..n], k, announce);
      OneAttemptOutline(env, paths[n], k + n, announce);
      OutlineAppend(AttemptAll(env, paths[..n], k, announce), OneAttempt(env, paths[n], k + n, announce));
    }
  }

  lemma OneTry(path: Path)
    ensures Announced([path]) == [ReadyToBoot, Attempt(path)] && Unannounced([path]) == [Attempt(path)]
    ensures Announced([]) == [] && Unannounced([]) == []
  {
    assert [path][..0] == [];
  }

  // Before the lock a run announces itself, asks for DFCI if configured, dispatches drivers, connects
  // everything but USB, and processes capsules last, if at all.
  lemma PreLockInOrder(c: Config, env: Env)
    ensures var n := env.dispatches + 1;
            var d := if c.dfciSignal then 1 else 0;
            var es := PreLock(c, env);
            && |es| == 2 + d + n + (if c.capsules then 1 else 0)
            && es[0] == StartOfBds && (c.dfciSignal ==> es[1] == DfciStart)
            && (forall i | 1 + d <= i < 1 + d + n :: es[i] == DispatchDrivers)
            && es[1 + d + n] == ConnectSkipUsb && (c.capsules ==> es[2 + d + n] == ProcessCapsules)
  {
    hide Dispatches;
    var n, d := env.dispatches + 1, if c.dfciSignal then 1 else 0;
    DispatchesAre(n);
    var es := PreLock(c, env);
    forall i | 1 + d <= i < 1 + d + n ensures es[i] == DispatchDrivers {
      assert es[i] == Dispatches(n)[i - 1 - d];
    }
  }

  lemma {:induction false} DispatchesAre(n: nat)
    ensures |Dispatches(n)| == n && forall i | 0 <= i < n :: Dispatches(n)[i] == DispatchDrivers
  {
    if n > 0 {
      DispatchesAre(n - 1);
    }
  }

  // The lock by what fails first.
  lemma LockByFailure(env: Env)
    ensures var s := env.endOfDxe;
            LockEvents(env) ==
              if !s.create then []
              else if !s.signal || !s.close then [EndOfDxe(false)]
              else [EndOfDxe(true), ReadyToLock(env.readyToLock)]
    ensures Locked(env) <==> env.endOfDxe == Signal(true, true, true) && env.readyToLock
  {
  }

  // The chainload path is the boot file on the first measurable volume below the RAM disk.
  lemma {:induction false} FirstBelowIsFirst(parent: Path, vs: seq<Option<Path>>, k: nat)
    requires k < |vs| && vs[k].Some? && Measurable(vs[k].value) && parent <= vs[k].value
    requires forall i | 0 <= i < k :: !(vs[i].Some? && Measurable(vs[i].value) && parent <= vs[i].value)
    ensures FirstBelow(parent, vs) == vs[k]
  {
    if k > 0 {
      FirstBelowIsFirst(parent, vs[1..], k - 1);
    }
  }

  lemma {:induction false} NoneBelow(parent: Path, vs: seq<Option<Path>>)
    requires forall i | 0 <= i < |vs| :: !(vs[i].Some? && Measurable(vs[i].value) && parent <= vs[i].value)
    ensures FirstBelow(parent, vs) == None
  {
    if vs != [] {
      NoneBelow(parent, vs[1..]);
    }
  }

  /** The recovery payload's volume that is chainloaded: the first whose path can be measured and
      begins with the RAM disk's vendor node. */
  ghost predicate ChainloadedFrom(r: Recovery, v: Path) {
    && r.registered
    && exists k | 0 <= k < |r.volumes| ::
         && r.volumes[k] == Some(v) && BelowRamDisk(r.volumes[k])
         && forall i | 0 <= i < k :: !BelowRamDisk(r.volumes[i])
  }

  ghost predicate BelowRamDisk(v: Option<Path>) {
    && v.Some? && Measurable(v.value)
    && [Node(4, 3, [0x7e, 0x1c, 0x0b, 0x5d, 0x2f, 0x8a, 0x5c, 0x4e, 0x9d, 0x3a, 0x7b, 0x8e, 0x9f, 0x1c, 0x2d, 0x4a])] <= v.value
  }

  lemma ChainloadIsExact(r: Recovery, parses: Path -> bool, path: Path)
    ensures ChainloadPath(r, parses) == Some(path) <==>
              exists v :: ChainloadedFrom(r, v) && path == v + [FilePathNode(Units("\\EFI\\Boot\\bootx64.efi"))] && parses(path)
  {
    hide Measurable;
    if exists k | 0 <= k < |r.volumes| :: BelowRamDisk(r.volumes[k]) {
      var k := FirstSuch(r.volumes);
      FirstBelowIsFirst(RAM_DISK, r.volumes, k);
      assert r.registered ==> ChainloadedFrom(r, r.volumes[k].value);
    } else {
      NoneBelow(RAM_DISK, r.volumes);
    }
  }

  lemma {:induction false} FirstSuch(vs: seq<Option<Path>>) returns (k: nat)
    requires exists k | 0 <= k < |vs| :: BelowRamDisk(vs[k])
    ensures k < |vs| && BelowRamDisk(vs[k]) && forall i | 0 <= i < k :: !BelowRamDisk(vs[i])
  {
    hide BelowRamDisk;
    k := 0;
    while !BelowRamDisk(vs[k])
      invariant k < |vs| && forall i | 0 <= i < k :: !BelowRamDisk(vs[i])
      invariant exists j | k <= j < |vs| :: BelowRamDisk(vs[j])
      decreases |vs| - k
    {
      k := k + 1;
    }
  }

  ghost function IfSome(path: Option<Path>): seq<Event> {
    match path case None => [] case Some(p) => [Attempt(p)]
  }

  // The hotkey phase: with either key everything is connected and the consoles are found first.
  lemma HotkeyOutline(c: Config, env: Env)
    ensures var es := Outline(HotkeyEvents(c, env));
            match env.hotkey
            case NoHotkey => es == []
            case VolumeUp =>
              if c.sreApp.Some? then es == [ConnectAll, DiscoverConsoles, ReadyToBoot, Attempt(c.sreApp.value)]
              else es == [ConnectAll, DiscoverConsoles, ReadyToBoot, ConnectAll] + IfSome(ChainloadPath(env.recovery(0), env.parses))
            case VolumeDown =>
              if FirstUsb(env.usbVolumes, env.parses).Some? then
                var v := FirstUsb(env.usbVolumes, env.parses).value;
                es == [ConnectAll, DiscoverConsoles, ReadyToBoot, Attempt(v + [FilePathNode(Units("\\EFI\\Boot\\bootx64.efi"))])]
              else if c.frontpage.Some? then es == [ConnectAll, DiscoverConsoles, ReadyToBoot, Attempt(c.frontpage.value)]
              else es == [ConnectAll, DiscoverConsoles]
  {
    hide Outline;
    hide ChainloadPath;
    hide FirstUsb;
    hide HotkeyEvents;
    hide HotkeyAttempt;
    hide AttemptAll;
    hide Announced;
    hide Unannounced;
    hide Units;
    var paths := HotkeyPaths(c, env);
    KeyOutline(c, env);
    if paths == [] {
      OneTry([]);
    } else {
      assert paths == [paths[0]];
      OneTry(paths[0]);
    }
  }

  lemma KeyOutline(c: Config, env: Env)
    ensures var paths := HotkeyPaths(c, env);
            Outline(HotkeyEvents(c, env)) ==
              if env.hotkey.NoHotkey? then []
              else if env.hotkey.VolumeUp? && c.sreApp.None? then
                [ConnectAll, DiscoverConsoles, ReadyToBoot, ConnectAll] + Unannounced(paths)
              else [ConnectAll, DiscoverConsoles] + Announced(paths)
  {
    hide HotkeyPaths;
    hide Outline;
    hide AttemptAll;
    hide Announced;
    hide Unannounced;
    var paths := HotkeyPaths(c, env);
    QuietOutline([]);
    QuietOutline([ConnectAll, DiscoverConsoles]);
    if env.hotkey.NoHotkey? {
    } else if env.hotkey.VolumeUp? && c.sreApp.None? {
      var before: seq<Event> := [ConnectAll, DiscoverConsoles, ReadyToBoot, ConnectAll];
      RecoveryKey(c, env);
      QuietOutline(before);
      AttemptAllOutline(env, paths, 0, false);
      OutlineAppend(before, AttemptAll(env, paths, 0, false));
    } else {
      AttemptAllOutline(env, paths, 0, true);
      OutlineAppend([ConnectAll, DiscoverConsoles], AttemptAll(env, paths, 0, true));
    }
  }

  lemma RecoveryKey(c: Config, env: Env)
    requires env.hotkey.VolumeUp? && c.sreApp.None?
    ensures HotkeyEvents(c, env)
         == [ConnectAll, DiscoverConsoles, ReadyToBoot, ConnectAll] + AttemptAll(env, HotkeyPaths(c, env), 0, false)
  {
    hide AttemptAll;
    hide HotkeyPaths;
  }

  // One pass: the second connects everything first. The kept boot options are each announced; if
  // there are none the main OS is announced and the kept fallback candidates follow unannounced.
  lemma PassOutline(c: Config, env: Env, pass: nat, k: nat)
    ensures var sre := c.bpSreFallback && env.hasSrePayload;
            var options := match env.discovered(pass) case Err(_) => [] case Ok(paths) => KeptOptions(sre, paths);
            var candidates :=
              match Fallback(c.policy, env.secureBoot(pass), env.setupMode(pass), env.volumes(pass))
              case Err(_) => []
              case Ok(paths) => KeptFallback(sre, paths);
            && Outline(PassEvents(c, env, pass, k)) ==
                 (if pass == 1 then [ConnectAll] else [])
                 + (if options != [] then Announced(options) else [ReadyToBoot, Attempt(c.mainOs)] + Unannounced(candidates))
            && |PassPaths(c, env, pass)| == if options != [] then |options| else 1 + |candidates|
  {
    hide AttemptAll;
    hide Outline;
    hide KeptOptions;
    hide KeptFallback;
    hide Fallback;
    hide Announced;
    hide Unannounced;
    var connect: seq<Event> := if pass == 1 then [ConnectAll] else [];
    var options, candidates := OptionPaths(c, env, pass), FallbackPaths(c, env, pass);
    QuietOutline(connect);
    AttemptAllOutline(env, options, k, true);
    AttemptAllOutline(env, [c.mainOs], k, true);
    AttemptAllOutline(env, candidates, k + 1, false);
    OneTry(c.mainOs);
    OutlineAppend(AttemptAll(env, [c.mainOs], k, true), AttemptAll(env, candidates, k + 1, false));
    OutlineAppend(connect, AttemptAll(env, options, k, true));
    OutlineAppend(connect, NoOptionEvents(c, env, pass, k));
  }

  // The last resort: a full connect and the chainload, if a recovery payload may be used.
  lemma LastResortOutline(c: Config, env: Env, k: nat)
    ensures Outline(LastResortEvents(c, env, k)) ==
              if c.bpSreFallback && env.hasSrePayload then
                [ConnectAll] + IfSome(ChainloadPath(env.recovery(1), env.parses))
              else []
  {
    hide AttemptAll;
    hide Outline;
    hide ChainloadPath;
    var paths := LastResortPaths(c, env);
    QuietOutline([]);
    QuietOutline([ConnectAll]);
    AttemptAllOutline(env, paths, k, false);
    if paths != [] { OneTry(paths[0]); } else { OneTry([]); }
    OutlineAppend([ConnectAll], AttemptAll(env, paths, k, false));
  }

  // A run is the work before the lock, the lock and, only if both transitions succeed, the hotkey
  // phase, two passes and the last resort.
  lemma RunOutline(c: Config, env: Env)
    ensures exists n0: nat, n1: nat, n2: nat ::
              Outline(RunEvents(c, env)) ==
                PreLock(c, env) + LockEvents(env)
                + if env.endOfDxe == Signal(true, true, true) && env.readyToLock then
                    Outline(HotkeyEvents(c, env)) + Outline(PassEvents(c, env, 0, n0)) + Outline(PassEvents(c, env, 1, n1))
                    + Outline(LastResortEvents(c, env, n2))
                  else []
  {
    hide PreLock;
    hide HotkeyEvents;
    hide PassEvents;
    hide LastResortEvents;
    hide HotkeyPaths;
    hide PassPaths;
    hide Outline;
    PreLockIsPreLock(c, env);
    var before := PreLock(c, env) + LockEvents(env);
    assert forall i | 0 <= i < |before| :: IsPreLock(before[i]) || IsLock(before[i]);
    QuietOutline(before);
    var n0 := |HotkeyPaths(c, env)|;
    var n1 := n0 + |PassPaths(c, env, 0)|;
    var n2 := n1 + |PassPaths(c, env, 1)|;
    var h, p0, p1, l := HotkeyEvents(c, env), PassEvents(c, env, 0, n0), PassEvents(c, env, 1, n1), LastResortEvents(c, env, n2);
    OutlineAppend(h, p0);
    OutlineAppend(h + p0, p1);
    OutlineAppend(h + p0 + p1, l);
    QuietOutline([]);
    OutlineAppend(before, if Locked(env) then BootPhase(c, env) else []);
    LockByFailure(env);
  }

  // ---- The first attempt ------------------------------------------------------------------

  /** A node of a firmware volume or of a file in one: media type 4, subtypes 7 and 6. */
  ghost predicate FirmwareNode(n: Node) {
    n.kind == 4 && (n.sub == 6 || n.sub == 7)
  }

  /** With a recovery payload present, an option with such a node is skipped. */
  ghost predicate Skipped(sre: bool, path: Path) {
    sre && exists i | 0 <= i < |path| :: UsbNode(path[i]) || FirmwareNode(path[i])
  }

  lemma SkippedIsExact(sre: bool, path: Path)
    ensures Skipped(sre, path) <==> sre && (IsUsb(path) || IsFirmwareFile(path))
  {
    if i :| 0 <= i < |path| && (UsbNode(path[i]) || FirmwareNode(path[i])) {
      assert UsbNode(path[i]) ==> IsUsbNode(path[i]);
    }
    if IsUsb(path) {
      var i :| 0 <= i < |path| && IsUsbNode(path[i]);
      assert UsbNode(path[i]);
    }
    if IsFirmwareFile(path) {
      var i :| 0 <= i < |path| && path[i].kind == TYPE_MEDIA
               && (path[i].sub == SUBTYPE_FIRMWARE_FILE || path[i].sub == SUBTYPE_FIRMWARE_VOLUME);
      assert FirmwareNode(path[i]);
    }
  }

  /** The first attempt of a pass: the first discovered option not skipped, or else the main OS. */
  ghost predicate BeginsPass(c: Config, discovered: Result<seq<Path>, Status>, sre: bool, path: Path) {
    match discovered
    case Err(_) => path == c.mainOs
    case Ok(options) =>
      || (exists k | 0 <= k < |options| ::
            path == options[k] && !Skipped(sre, options[k]) && forall i | 0 <= i < k :: Skipped(sre, options[i]))
      || (path == c.mainOs && forall i | 0 <= i < |options| :: Skipped(sre, options[i]))
  }

  lemma {:induction false} FirstKept(sre: bool, options: seq<Path>) returns (k: nat)
    requires KeptOptions(sre, options) != []
    ensures k < |options| && !Skipped(sre, options[k]) && forall i | 0 <= i < k :: Skipped(sre, options[i])
    ensures KeptOptions(sre, options)[0] == options[k]
    decreases |options|
  {
    hide Skipped;
    var n := |options| - 1;
    var rest := options[..n];
    if KeptOptions(sre, rest) == [] {
      k := n;
      SkippedIsExact(sre, options[n]);
      AllSkipped(sre, rest);
      assert forall i | 0 <= i < n :: options[i] == rest[i];
    } else {
      k := FirstKept(sre, rest);
      assert forall i | 0 <= i <= k :: options[i] == rest[i];
    }
  }

  lemma {:induction false} AllSkipped(sre: bool, options: seq<Path>)
    requires KeptOptions(sre, options) == []
    ensures forall i | 0 <= i < |options| :: Skipped(sre, options[i])
    decreases |options|
  {
    hide Skipped;
    if options != [] {
      var n := |options| - 1;
      AllSkipped(sre, options[..n]);
      SkippedIsExact(sre, options[n]);
      forall i | 0 <= i < |options| ensures Skipped(sre, options[i]) {
        if i < n { assert Skipped(sre, options[..n][i]); }
      }
    }
  }

  lemma PassBegins(c: Config, env: Env, pass: nat)
    ensures PassPaths(c, env, pass) != []
    ensures BeginsPass(c, env.discovered(pass), c.bpSreFallback && env.hasSrePayload, PassPaths(c, env, pass)[0])
  {
    hide KeptOptions;
    hide Skipped;
    hide FallbackPaths;
    var sre := c.bpSreFallback && env.hasSrePayload;
    if env.discovered(pass).Ok? {
      var options := env.discovered(pass).value;
      if KeptOptions(sre, options) != [] {
        var k := FirstKept(sre, options);
      } else {
        AllSkipped(sre, options);
      }
    }
  }

  /** A volume on USB media that can be measured and whose boot file path parses. */
  ghost predicate UsbCandidate(v: Option<Path>, parses: Path -> bool) {
    && v.Some? && Measurable(v.value) && (exists i | 0 <= i < |v.value| :: UsbNode(v.value[i]))
    && parses(v.value + [FilePathNode(Units("\\EFI\\Boot\\bootx64.efi"))])
  }

  lemma UsbCandidateIsBootable(v: Option<Path>, parses: Path -> bool)
    ensures UsbCandidate(v, parses) <==> UsbBootable(v, parses)
  {
    hide Measurable;
    if v.Some? {
      if i :| 0 <= i < |v.value| && UsbNode(v.value[i]) {
        assert IsUsbNode(v.value[i]);
      }
      if i :| 0 <= i < |v.value| && IsUsbNode(v.value[i]) {
        assert UsbNode(v.value[i]);
      }
    }
  }

  /** What the volume-down key prefers: the boot file of the first USB volume that has one. */
  ghost predicate FirstUsbFile(volumes: Result<seq<Option<Path>>, Status>, parses: Path -> bool, path: Path) {
    && volumes.Ok?
    && exists k | 0 <= k < |volumes.value| ::
         && UsbCandidate(volumes.value[k], parses) && (forall i | 0 <= i < k :: !UsbCandidate(volumes.value[i], parses))
         && path == volumes.value[k].value + [FilePathNode(Units("\\EFI\\Boot\\bootx64.efi"))]
  }

  ghost predicate NoUsbFile(volumes: Result<seq<Option<Path>>, Status>, parses: Path -> bool) {
    volumes.Ok? ==> forall i | 0 <= i < |volumes.value| :: !UsbCandidate(volumes.value[i], parses)
  }

  lemma FirstUsbFileIsExact(volumes: Result<seq<Option<Path>>, Status>, parses: Path -> bool)
    ensures FirstUsb(volumes, parses).None? ==> NoUsbFile(volumes, parses)
    ensures FirstUsb(volumes, parses).Some? ==> FirstUsbFile(volumes, parses, BootFile(FirstUsb(volumes, parses).value))
  {
    hide UsbBootable;
    hide UsbCandidate;
    if volumes.Ok? {
      var vs := volumes.value;
      forall i | 0 <= i < |vs| ensures UsbCandidate(vs[i], parses) <==> UsbBootable(vs[i], parses) {
        UsbCandidateIsBootable(vs[i], parses);
      }
      if FirstUsb(volumes, parses).Some? {
        FirstUsbIsFirst(vs, parses, FirstUsb(volumes, parses).value);
      }
    }
  }

  // The first attempt of a locked run. Volume up asks for the recovery application or else the
  // chainload of the recovery payload; volume down for the first USB boot file or else the front
  // page; and without a key, or when the key finds nothing, the first pass begins at once.
  lemma FirstAttempt(c: Config, env: Env)
    requires env.endOfDxe == Signal(true, true, true) && env.readyToLock
    ensures Attempts(RunEvents(c, env)) != []
    ensures var first := Attempts(RunEvents(c, env))[0];
            var begins := BeginsPass(c, env.discovered(0), c.bpSreFallback && env.hasSrePayload, first);
            match env.hotkey
            case NoHotkey => begins
            case VolumeUp =>
              if c.sreApp.Some? then first == c.sreApp.value
              else if ChainloadPath(env.recovery(0), env.parses).Some? then
                first == ChainloadPath(env.recovery(0), env.parses).value
              else begins
            case VolumeDown =>
              || FirstUsbFile(env.usbVolumes, env.parses, first)
              || (NoUsbFile(env.usbVolumes, env.parses) && if c.frontpage.Some? then first == c.frontpage.value else begins)
  {
    hide PassPaths;
    hide LastResortPaths;
    hide RunEvents;
    hide BeginsPass;
    hide FirstUsbFile;
    hide NoUsbFile;
    hide ChainloadPath;
    hide FirstUsb;
    hide Attempts;
    AttemptsAreExact(c, env);
    PassBegins(c, env, 0);
    FirstUsbFileIsExact(env.usbVolumes, env.parses);
  }
}
