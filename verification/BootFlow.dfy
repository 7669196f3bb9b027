/** The boot manager's run: work before the lock, the two-step lock transition, the hotkey paths,
    two passes over the boot options and the last-resort recovery, as a trace of firmware events. */
module BootFlow {
  import opened Bytes
  import opened Efi
  import opened DevicePath
  import opened ShortForm
  import opened BootSource

  datatype Event =
    | StartOfBds
    | DfciStart
    | DispatchDrivers
    | ConnectSkipUsb
    | ProcessCapsules
    | EndOfDxe(ok: bool)
    | ReadyToLock(ok: bool)
    | ConnectAll
    | DiscoverConsoles
    | ReadyToBoot
    | Attempt(path: Path)
    | Load(full: Path)
    | Watchdog(seconds: nat)
    | Start(full: Path)

  datatype Hotkey = VolumeUp | VolumeDown | NoHotkey

  datatype Config = Config(mainOs: Path, sreApp: Option<Path>, frontpage: Option<Path>, bpSreFallback: bool,
                           dfciSignal: bool, capsules: bool, policy: Policy)

  /** Creating, signalling and closing the EndOfDxe event may each fail. */
  datatype Signal = Signal(create: bool, signal: bool, close: bool)

  /** How firmware answers one boot attempt: the device paths it lists for a short-form expansion,
      and whether loading and arming the watchdog succeed. */
  datatype BootAnswer = BootAnswer(handles: Result<seq<Option<Path>>, Status>, load: bool, watchdog: bool)

  /** How one recovery run goes up to the chainload: whether the RAM disk was registered, and the
      device paths of the filesystem handles found then. */
  datatype Recovery = Recovery(registered: bool, volumes: seq<Option<Path>>)

  /** Everything firmware decides during a run; passes, recoveries and attempts are numbered. A
      volume is `None` if its path could not be read, and `parses` is what the device path library
      makes of a path put together from a volume and a boot file. */
  datatype Env = Env(
    dispatches: nat,
    endOfDxe: Signal,
    readyToLock: bool,
    hotkey: Hotkey,
    usbVolumes: Result<seq<Option<Path>>, Status>,
    parses: Path -> bool,
    hasSrePayload: bool,
    discovered: nat -> Result<seq<Path>, Status>,
    secureBoot: nat -> Result<seq<byte>, Status>,
    setupMode: nat -> Result<seq<byte>, Status>,
    volumes: nat -> Result<seq<Option<Path>>, Status>,
    recovery: nat -> Recovery,
    boot: nat -> BootAnswer)

  const WATCHDOG_SECONDS := 300

  // ---- One boot attempt -------------------------------------------------------------------

  function FullPath(path: Path, a: BootAnswer): Result<Path, Status> {
    if IsPartial(path) then Expand(path, a.handles) else Ok(path)
  }

  /** The events of `boot_from_device_path`, the attempt itself included. */
  function BootEvents(path: Path, a: BootAnswer): seq<Event> {
    [Attempt(path)] +
    match FullPath(path, a)
    case Err(_) => []
    case Ok(full) =>
      [Load(full)] +
      if !a.load then [] else
      [Watchdog(WATCHDOG_SECONDS)] +
      if !a.watchdog then [] else [Start(full), Watchdog(0)]
  }

  function OneAttempt(env: Env, path: Path, k: nat, announce: bool): seq<Event> {
    (if announce then [ReadyToBoot] else []) + BootEvents(path, env.boot(k))
  }

  /** Attempts on every path in turn, the first being attempt number `k`. */
  function AttemptAll(env: Env, paths: seq<Path>, k: nat, announce: bool): seq<Event> {
    if paths == [] then []
    else
      AttemptAll(env, paths[..|paths| - 1], k, announce)
      + OneAttempt(env, paths[|paths| - 1], k + |paths| - 1, announce)
  }

  // ---- The recovery flow ------------------------------------------------------------------

  const DEFAULT_BOOT_FILE := "\\EFI\\Boot\\bootx64.efi"

  const RAM_DISK_GUID: seq<byte> :=
    [0x7e, 0x1c, 0x0b, 0x5d, 0x2f, 0x8a, 0x5c, 0x4e, 0x9d, 0x3a, 0x7b, 0x8e, 0x9f, 0x1c, 0x2d, 0x4a]

  /** The RAM disk's device path: a media vendor node. */
  const RAM_DISK: Path := [Node(TYPE_MEDIA, 0x03, RAM_DISK_GUID)]

  /** The first filesystem handle below the RAM disk whose path the size walk can measure. */
  function FirstBelow(parent: Path, volumes: seq<Option<Path>>): (v: Option<Path>)
    ensures v.Some? ==> parent <= v.value && Measurable(v.value)
  {
    if volumes == [] then None
    else if volumes[0].Some? && Measurable(volumes[0].value) && parent <= volumes[0].value then volumes[0]
    else FirstBelow(parent, volumes[1..])
  }

  function ChainloadPath(r: Recovery, parses: Path -> bool): Option<Path> {
    if !r.registered then None
    else match FirstBelow(RAM_DISK, r.volumes)
      case None => None
      case Some(volume) => if parses(BootFile(volume)) then Some(BootFile(volume)) else None
  }

  function BootFile(volume: Path): Path {
    Candidate(volume, DEFAULT_BOOT_FILE)
  }

  /** `run_sre_flow` as far as boot events go: a full connect, then at most one attempt. */
  function RecoveryPaths(r: Recovery, parses: Path -> bool): seq<Path> {
    match ChainloadPath(r, parses) case None => [] case Some(path) => [path]
  }

  /** A volume on USB media whose boot file path can be built. */
  predicate UsbBootable(v: Option<Path>, parses: Path -> bool) {
    v.Some? && IsUsb(v.value) && Measurable(v.value) && parses(BootFile(v.value))
  }

  function FirstUsbOf(vs: seq<Option<Path>>, parses: Path -> bool): (v: Option<Path>)
    ensures v.Some? ==> v in vs && UsbBootable(v, parses)
    ensures v.None? ==> forall i | 0 <= i < |vs| :: !UsbBootable(vs[i], parses)
  {
    if vs == [] then None
    else if UsbBootable(vs[0], parses) then vs[0]
    else FirstUsbOf(vs[1..], parses)
  }

  /** The first bootable filesystem volume on USB media; none if the volumes cannot be enumerated. */
  function FirstUsb(volumes: Result<seq<Option<Path>>, Status>, parses: Path -> bool): Option<Path> {
    match volumes case Err(_) => None case Ok(vs) => FirstUsbOf(vs, parses)
  }

  // A volume is found exactly when it is the first bootable one of the enumeration.
  lemma {:induction false} FirstUsbIsFirst(vs: seq<Option<Path>>, parses: Path -> bool, v: Path)
    ensures FirstUsbOf(vs, parses) == Some(v) <==>
            exists k | 0 <= k < |vs| ::
              vs[k] == Some(v) && UsbBootable(vs[k], parses) && forall i | 0 <= i < k :: !UsbBootable(vs[i], parses)
  {
    hide UsbBootable;
    if vs != [] && !UsbBootable(vs[0], parses) {
      var rest := vs[1..];
      FirstUsbIsFirst(rest, parses, v);
      if k: nat :| k < |rest| && rest[k] == Some(v) && UsbBootable(rest[k], parses)
                   && forall i | 0 <= i < k :: !UsbBootable(rest[i], parses) {
        forall i | 0 <= i < k + 1 ensures !UsbBootable(vs[i], parses) {
          if i > 0 { assert vs[i] == rest[i - 1]; }
        }
        assert vs[k + 1] == Some(v);
      }
      if k: nat :| k < |vs| && vs[k] == Some(v) && UsbBootable(vs[k], parses)
                   && forall i | 0 <= i < k :: !UsbBootable(vs[i], parses) {
        assert rest[k - 1] == Some(v);
        forall i | 0 <= i < k - 1 ensures !UsbBootable(rest[i], parses) { assert rest[i] == vs[i + 1]; }
      }
    }
  }

  /** `find_first_usb_sfs_device_path`: the boot file on the first such volume. */
  method FindFirstUsb(volumes: Result<seq<Option<Path>>, Status>, parses: Path -> bool) returns (path: Option<Path>)
    ensures path == match FirstUsb(volumes, parses) case None => None case Some(v) => Some(BootFile(v))
  {
    hide UsbBootable;
    if volumes.Err? {
      return None;
    }
    var vs := volumes.value;
    assert vs[0..] == vs;
    for i := 0 to |vs|
      invariant FirstUsbOf(vs[i..], parses) == FirstUsbOf(vs, parses)
    {
      assert vs[i..][0] == vs[i] && vs[i..][1..] == vs[i + 1..];
      if UsbBootable(vs[i], parses) {
        return Some(BootFile(vs[i].value));
      }
    }
    return None;
  }

  // ---- A whole run ------------------------------------------------------------------------

  function Dispatches(n: nat): seq<Event> {
    if n == 0 then [] else Dispatches(n - 1) + [DispatchDrivers]
  }

  /** The driver dispatcher runs until it reports nothing more or fails, so at least once. */
  function PreLock(c: Config, env: Env): seq<Event> {
    [StartOfBds] + (if c.dfciSignal then [DfciStart] else []) + Dispatches(env.dispatches + 1)
    + [ConnectSkipUsb] + (if c.capsules then [ProcessCapsules] else [])
  }

  predicate SignalOk(s: Signal) {
    s.create && s.signal && s.close
  }

  predicate Locked(env: Env) {
    SignalOk(env.endOfDxe) && env.readyToLock
  }

  function LockEvents(env: Env): seq<Event> {
    (if env.endOfDxe.create then [EndOfDxe(SignalOk(env.endOfDxe))] else [])
    + (if SignalOk(env.endOfDxe) then [ReadyToLock(env.readyToLock)] else [])
  }

  /** The attempt the hotkey asks for, if any, and whether it is the recovery flow. */
  function HotkeyPaths(c: Config, env: Env): seq<Path> {
    match env.hotkey
    case NoHotkey => []
    case VolumeUp => if c.sreApp.Some? then [c.sreApp.value] else RecoveryPaths(env.recovery(0), env.parses)
    case VolumeDown =>
      if FirstUsb(env.usbVolumes, env.parses).Some? then [BootFile(FirstUsb(env.usbVolumes, env.parses).value)]
      else if c.frontpage.Some? then [c.frontpage.value]
      else []
  }

  function HotkeyEvents(c: Config, env: Env): seq<Event> {
    if env.hotkey.NoHotkey? then []
    else
      [ConnectAll, DiscoverConsoles] + HotkeyAttempt(c, env)
  }

  function HotkeyAttempt(c: Config, env: Env): seq<Event> {
    if env.hotkey.VolumeUp? && c.sreApp.None? then
      [ReadyToBoot] + ([ConnectAll] + AttemptAll(env, HotkeyPaths(c, env), 0, false))
    else AttemptAll(env, HotkeyPaths(c, env), 0, true)
  }

  predicate HasSre(c: Config, env: Env) {
    c.bpSreFallback && env.hasSrePayload
  }

  predicate IsFirmwareFile(path: Path) {
    exists i | 0 <= i < |path| ::
      path[i].kind == TYPE_MEDIA && (path[i].sub == SUBTYPE_FIRMWARE_FILE || path[i].sub == SUBTYPE_FIRMWARE_VOLUME)
  }

  /** Options kept while a recovery payload is present: no USB media and no firmware files. */
  function KeptOptions(hasSre: bool, paths: seq<Path>): seq<Path> {
    if paths == [] then []
    else
      KeptOptions(hasSre, paths[..|paths| - 1])
      + if hasSre && (IsUsb(paths[|paths| - 1]) || IsFirmwareFile(paths[|paths| - 1])) then [] else [paths[|paths| - 1]]
  }

  /** Fallback candidates kept while a recovery payload is present: no USB media. */
  function KeptFallback(hasSre: bool, paths: seq<Path>): seq<Path> {
    if paths == [] then []
    else
      KeptFallback(hasSre, paths[..|paths| - 1])
      + if hasSre && IsUsb(paths[|paths| - 1]) then [] else [paths[|paths| - 1]]
  }

  function OptionPaths(c: Config, env: Env, pass: nat): seq<Path> {
    match env.discovered(pass)
    case Err(_) => []
    case Ok(paths) => KeptOptions(HasSre(c, env), paths)
  }

  function FallbackPaths(c: Config, env: Env, pass: nat): seq<Path> {
    match Fallback(c.policy, env.secureBoot(pass), env.setupMode(pass), env.volumes(pass))
    case Err(_) => []
    case Ok(paths) => KeptFallback(HasSre(c, env), paths)
  }

  /** What one pass attempts: the kept boot options, or if there are none the main OS and then the
      kept fallback candidates. */
  function PassPaths(c: Config, env: Env, pass: nat): seq<Path> {
    if OptionPaths(c, env, pass) != [] then OptionPaths(c, env, pass)
    else [c.mainOs] + FallbackPaths(c, env, pass)
  }

  function PassEvents(c: Config, env: Env, pass: nat, k: nat): seq<Event> {
    (if pass == 1 then [ConnectAll] else []) +
    if OptionPaths(c, env, pass) != [] then AttemptAll(env, OptionPaths(c, env, pass), k, true)
    else NoOptionEvents(c, env, pass, k)
  }

  function NoOptionEvents(c: Config, env: Env, pass: nat, k: nat): seq<Event> {
    AttemptAll(env, [c.mainOs], k, true) + AttemptAll(env, FallbackPaths(c, env, pass), k + 1, false)
  }

  function LastResortPaths(c: Config, env: Env): seq<Path> {
    if HasSre(c, env) then RecoveryPaths(env.recovery(1), env.parses) else []
  }

  function LastResortEvents(c: Config, env: Env, k: nat): seq<Event> {
    if HasSre(c, env) then [ConnectAll] + AttemptAll(env, LastResortPaths(c, env), k, false) else []
  }

  /** Everything after the lock. */
  function BootPhase(c: Config, env: Env): seq<Event> {
    var n0 := |HotkeyPaths(c, env)|;
    var n1 := n0 + |PassPaths(c, env, 0)|;
    var n2 := n1 + |PassPaths(c, env, 1)|;
    HotkeyEvents(c, env) + PassEvents(c, env, 0, n0) + PassEvents(c, env, 1, n1) + LastResortEvents(c, env, n2)
  }

  function RunEvents(c: Config, env: Env): seq<Event> {
    PreLock(c, env) + LockEvents(env) + if Locked(env) then BootPhase(c, env) else []
  }

  // ---- Joining traces ---------------------------------------------------------------------

  lemma Join3(t: seq<Event>, a: seq<Event>, b: seq<Event>)
    ensures t + a + b == t + (a + b)
  {
  }

  lemma Join5(t: seq<Event>, a: seq<Event>, b: seq<Event>, c: seq<Event>, d: seq<Event>)
    ensures t + a + b + c + d == t + (a + b + c + d)
  {
  }

  lemma AttemptNext(env: Env, paths: seq<Path>, next: Path, k: nat, announce: bool)
    ensures AttemptAll(env, paths + [next], k, announce)
         == AttemptAll(env, paths, k, announce) + OneAttempt(env, next, k + |paths|, announce)
  {
    hide OneAttempt;
    assert (paths + [next])[..|paths|] == paths;
  }

  // ---- What every run keeps ---------------------------------------------------------------

  predicate IsPreLock(e: Event) {
    e.StartOfBds? || e.DfciStart? || e.DispatchDrivers? || e.ConnectSkipUsb? || e.ProcessCapsules?
  }

  predicate IsLock(e: Event) {
    e.EndOfDxe? || e.ReadyToLock?
  }

  predicate IsBoot(e: Event) {
    e.ConnectAll? || e.DiscoverConsoles? || e.ReadyToBoot? || e.Attempt? || e.Load? || e.Watchdog? || e.Start?
  }

  predicate AllBoot(es: seq<Event>) {
    forall i | 0 <= i < |es| :: IsBoot(es[i])
  }

  lemma {:induction false} AttemptsAreBoot(env: Env, paths: seq<Path>, k: nat, announce: bool)
    ensures AllBoot(AttemptAll(env, paths, k, announce))
    decreases |paths|
  {
    if paths != [] {
      AttemptsAreBoot(env, paths[..|paths| - 1], k, announce);
    }
  }

  lemma {:induction false} DispatchesArePreLock(n: nat)
    ensures forall i | 0 <= i < |Dispatches(n)| :: IsPreLock(Dispatches(n)[i])
  {
    if n > 0 {
      DispatchesArePreLock(n - 1);
    }
  }

  lemma PassIsBoot(c: Config, env: Env, pass: nat, k: nat)
    ensures AllBoot(PassEvents(c, env, pass, k))
  {
    AttemptsAreBoot(env, OptionPaths(c, env, pass), k, true);
    AttemptsAreBoot(env, [c.mainOs], k, true);
    AttemptsAreBoot(env, FallbackPaths(c, env, pass), k + 1, false);
  }

  lemma HotkeyIsBoot(c: Config, env: Env)
    ensures AllBoot(HotkeyEvents(c, env))
  {
    AttemptsAreBoot(env, HotkeyPaths(c, env), 0, true);
    AttemptsAreBoot(env, HotkeyPaths(c, env), 0, false);
  }

  lemma LastResortIsBoot(c: Config, env: Env, k: nat)
    ensures AllBoot(LastResortEvents(c, env, k))
  {
    AttemptsAreBoot(env, LastResortPaths(c, env), k, false);
  }

  lemma BootPhaseIsBoot(c: Config, env: Env)
    ensures AllBoot(BootPhase(c, env))
  {
    hide HotkeyEvents;
    hide PassEvents;
    hide LastResortEvents;
    hide HotkeyPaths;
    hide PassPaths;
    var n0 := |HotkeyPaths(c, env)|;
    var n1 := n0 + |PassPaths(c, env, 0)|;
    HotkeyIsBoot(c, env);
    PassIsBoot(c, env, 0, n0);
    PassIsBoot(c, env, 1, n1);
    LastResortIsBoot(c, env, n1 + |PassPaths(c, env, 1)|);
  }

  lemma PreLockIsPreLock(c: Config, env: Env)
    ensures forall i | 0 <= i < |PreLock(c, env)| :: IsPreLock(PreLock(c, env)[i])
    ensures ProcessCapsules in PreLock(c, env) <==> c.capsules
  {
    DispatchesArePreLock(env.dispatches + 1);
    var es := PreLock(c, env);
    if c.capsules {
      assert es[|es| - 1] == ProcessCapsules;
    } else {
      forall i | 0 <= i < |es| ensures es[i] != ProcessCapsules {
        NoCapsules(env.dispatches + 1);
      }
    }
  }

  lemma {:induction false} NoCapsules(n: nat)
    ensures ProcessCapsules !in Dispatches(n)
  {
    if n > 0 {
      NoCapsules(n - 1);
    }
  }

  // Every run is pre-lock work, then EndOfDxe and ReadyToLock, then boot events: capsules are
  // processed before both, and nothing is attempted, loaded or started unless both succeeded.
  lemma PhasesInOrder(c: Config, env: Env)
    ensures var es := RunEvents(c, env);
            var a, b := |PreLock(c, env)|, |PreLock(c, env)| + |LockEvents(env)|;
            && a <= b <= |es|
            && (forall i | 0 <= i < a :: IsPreLock(es[i]))
            && (forall i | a <= i < b :: IsLock(es[i]))
            && (forall i | b <= i < |es| :: IsBoot(es[i]))
            && (b < |es| ==> Locked(env))
            && (Locked(env) ==> es[a..b] == [EndOfDxe(true), ReadyToLock(true)])
            && (ProcessCapsules in es[..a] <==> c.capsules)
  {
    hide PreLock;
    hide BootPhase;
    PreLockIsPreLock(c, env);
    BootPhaseIsBoot(c, env);
    var es, a, b := RunEvents(c, env), |PreLock(c, env)|, |PreLock(c, env)| + |LockEvents(env)|;
    assert es[..a] == PreLock(c, env) && es[a..b] == LockEvents(env);
  }

  // So an image start at `i` has both transitions, successful and in that order, before it.
  lemma StartsFollowTheLock(c: Config, env: Env, i: nat)
    requires i < |RunEvents(c, env)| && (RunEvents(c, env)[i].Start? || RunEvents(c, env)[i].Load?)
    ensures Locked(env)
    ensures exists j, k | 0 <= j < k < i :: RunEvents(c, env)[j] == EndOfDxe(true) && RunEvents(c, env)[k] == ReadyToLock(true)
  {
    hide PreLock;
    hide BootPhase;
    PhasesInOrder(c, env);
    var es, a := RunEvents(c, env), |PreLock(c, env)|;
    var b := a + |LockEvents(env)|;
    assert i >= b;
    assert es[a..b][0] == es[a] && es[a..b][1] == es[a + 1];
  }

  /** Every start stands in the middle of its own attempt: the attempted path, the load of the full
      path, the watchdog armed, the start, the watchdog disarmed. */
  ghost predicate StartsInContext(es: seq<Event>) {
    forall i | 0 <= i < |es| && es[i].Start? :: InContext(es, i)
  }

  ghost predicate InContext(es: seq<Event>, i: nat)
    requires i < |es| && es[i].Start?
  {
    && 3 <= i && i + 1 < |es|
    && es[i - 3].Attempt? && es[i - 2] == Load(es[i].full)
    && es[i - 1] == Watchdog(WATCHDOG_SECONDS) && es[i + 1] == Watchdog(0)
    && Resolves(es[i - 3].path, es[i].full)
  }

  /** A full path stands for itself, a short-form path for an expansion of it. */
  ghost predicate Resolves(path: Path, full: Path) {
    if IsPartial(path) then exists handles :: Expand(path, handles) == Ok(full) else full == path
  }

  lemma ContextAppend(a: seq<Event>, b: seq<Event>)
    requires StartsInContext(a) && StartsInContext(b)
    ensures StartsInContext(a + b)
  {
    hide Resolves;
    var es := a + b;
    forall i | 0 <= i < |es| && es[i].Start?
      ensures InContext(es, i)
    {
      if i < |a| {
        assert InContext(a, i);
      } else {
        assert InContext(b, i - |a|);
      }
    }
  }

  lemma OneAttemptInContext(env: Env, path: Path, k: nat, announce: bool)
    ensures StartsInContext(OneAttempt(env, path, k, announce))
  {
    var a := env.boot(k);
    var full := FullPath(path, a);
    var b := BootEvents(path, a);
    if full.Ok? && a.load && a.watchdog {
      assert Resolves(path, full.value) by {
        if IsPartial(path) { assert Expand(path, a.handles) == Ok(full.value); }
      }
      assert b == [Attempt(path), Load(full.value), Watchdog(WATCHDOG_SECONDS), Start(full.value), Watchdog(0)];
    }
    assert StartsInContext(b);
    ContextAppend(if announce then [ReadyToBoot] else [], b);
  }

  lemma {:induction false} AttemptsInContext(env: Env, paths: seq<Path>, k: nat, announce: bool)
    ensures StartsInContext(AttemptAll(env, paths, k, announce))
    decreases |paths|
  {
    hide OneAttempt;
    if paths != [] {
      var n := |paths| - 1;
      AttemptsInContext(env, paths[..n], k, announce);
      OneAttemptInContext(env, paths[n], k + n, announce);
      ContextAppend(AttemptAll(env, paths[..n], k, announce), OneAttempt(env, paths[n], k + n, announce));
    }
  }

  /** The paths attempted, in order. */
  function Attempts(es: seq<Event>): seq<Path> {
    if es == [] then []
    else
      Attempts(es[..|es| - 1]) + if es[|es| - 1].Attempt? then [es[|es| - 1].path] else []
  }

  lemma {:induction false} AttemptsAppend(a: seq<Event>, b: seq<Event>)
    ensures Attempts(a + b) == Attempts(a) + Attempts(b)
    decreases |b|
  {
    if b == [] {
      assert a + b == a;
    } else {
      var n := |b| - 1;
      assert (a + b)[..|a + b| - 1] == a + b[..n];
      AttemptsAppend(a, b[..n]);
    }
  }

  lemma {:induction false} NoAttempts(es: seq<Event>)
    requires forall i | 0 <= i < |es| :: !es[i].Attempt?
    ensures Attempts(es) == []
  {
    if es != [] {
      NoAttempts(es[..|es| - 1]);
    }
  }

  lemma OneAttemptAttempts(env: Env, path: Path, k: nat, announce: bool)
    ensures Attempts(OneAttempt(env, path, k, announce)) == [path]
  {
    hide FullPath;
    hide Attempts;
    var before: seq<Event> := if announce then [ReadyToBoot] else [];
    var b := BootEvents(path, env.boot(k));
    var tail := b[1..];
    assert b == [Attempt(path)] + tail;
    NoAttempts(before);
    NoAttempts(tail);
    AttemptOnly(path);
    AttemptsAppend([Attempt(path)], tail);
    AttemptsAppend(before, b);
  }

  lemma AttemptOnly(path: Path)
    ensures Attempts([Attempt(path)]) == [path]
  {
    assert [Attempt(path)][..0] == [];
  }

  lemma {:induction false} AttemptAllAttempts(env: Env, paths: seq<Path>, k: nat, announce: bool)
    ensures Attempts(AttemptAll(env, paths, k, announce)) == paths
    decreases |paths|
  {
    hide OneAttempt;
    if paths != [] {
      var n := |paths| - 1;
      AttemptAllAttempts(env, paths[..n], k, announce);
      OneAttemptAttempts(env, paths[n], k + n, announce);
      AttemptsAppend(AttemptAll(env, paths[..n], k, announce), OneAttempt(env, paths[n], k + n, announce));
    }
  }

  lemma HotkeyFacts(c: Config, env: Env)
    ensures Attempts(HotkeyEvents(c, env)) == HotkeyPaths(c, env) && StartsInContext(HotkeyEvents(c, env))
  {
    hide HotkeyPaths;
    hide AttemptAll;
    if env.hotkey.NoHotkey? {
      NoHotkeyPaths(c, env);
    } else {
      var paths := HotkeyPaths(c, env);
      AttemptAllAttempts(env, paths, 0, true);
      AttemptAllAttempts(env, paths, 0, false);
      AttemptsInContext(env, paths, 0, true);
      AttemptsInContext(env, paths, 0, false);
      NothingAttempted([ConnectAll, DiscoverConsoles], HotkeyAttempt(c, env));
      NothingAttempted([ConnectAll], AttemptAll(env, paths, 0, false));
      NothingAttempted([ReadyToBoot], [ConnectAll] + AttemptAll(env, paths, 0, false));
    }
  }

  lemma NoHotkeyPaths(c: Config, env: Env)
    requires env.hotkey.NoHotkey?
    ensures HotkeyPaths(c, env) == []
  {
  }

  // Events before the first attempt change neither the attempts nor the context of a start.
  lemma NothingAttempted(a: seq<Event>, b: seq<Event>)
    requires forall i | 0 <= i < |a| :: !a[i].Attempt? && !a[i].Start?
    ensures Attempts(a + b) == Attempts(b)
    ensures StartsInContext(b) ==> StartsInContext(a + b)
  {
    NoAttempts(a);
    AttemptsAppend(a, b);
    if StartsInContext(b) {
      ContextAppend(a, b);
    }
  }

  lemma PassFacts(c: Config, env: Env, pass: nat, k: nat)
    ensures Attempts(PassEvents(c, env, pass, k)) == PassPaths(c, env, pass) && StartsInContext(PassEvents(c, env, pass, k))
  {
    hide AttemptAll;
    hide OptionPaths;
    hide FallbackPaths;
    var connect: seq<Event> := if pass == 1 then [ConnectAll] else [];
    var options, more := OptionPaths(c, env, pass), FallbackPaths(c, env, pass);
    var main := AttemptAll(env, [c.mainOs], k, true);
    AttemptAllAttempts(env, options, k, true);
    AttemptsInContext(env, options, k, true);
    AttemptAllAttempts(env, [c.mainOs], k, true);
    AttemptsInContext(env, [c.mainOs], k, true);
    AttemptAllAttempts(env, more, k + 1, false);
    AttemptsInContext(env, more, k + 1, false);
    AttemptsAppend(main, AttemptAll(env, more, k + 1, false));
    ContextAppend(main, AttemptAll(env, more, k + 1, false));
    NothingAttempted(connect, AttemptAll(env, options, k, true));
    NothingAttempted(connect, main + AttemptAll(env, more, k + 1, false));
  }

  lemma LastResortFacts(c: Config, env: Env, k: nat)
    ensures Attempts(LastResortEvents(c, env, k)) == LastResortPaths(c, env) && StartsInContext(LastResortEvents(c, env, k))
  {
    hide AttemptAll;
    var paths := LastResortPaths(c, env);
    AttemptAllAttempts(env, paths, k, false);
    AttemptsInContext(env, paths, k, false);
    NothingAttempted([ConnectAll], AttemptAll(env, paths, k, false));
  }

  lemma BootPhaseFacts(c: Config, env: Env)
    ensures Attempts(BootPhase(c, env))
         == HotkeyPaths(c, env) + PassPaths(c, env, 0) + PassPaths(c, env, 1) + LastResortPaths(c, env)
    ensures StartsInContext(BootPhase(c, env))
  {
    hide HotkeyEvents;
    hide PassEvents;
    hide LastResortEvents;
    hide HotkeyPaths;
    hide PassPaths;
    hide LastResortPaths;
    hide Attempts;
    hide StartsInContext;
    var n0 := |HotkeyPaths(c, env)|;
    var n1 := n0 + |PassPaths(c, env, 0)|;
    var n2 := n1 + |PassPaths(c, env, 1)|;
    HotkeyFacts(c, env);
    PassFacts(c, env, 0, n0);
    PassFacts(c, env, 1, n1);
    LastResortFacts(c, env, n2);
    var h, p0, p1 := HotkeyEvents(c, env), PassEvents(c, env, 0, n0), PassEvents(c, env, 1, n1);
    AttemptsAppend(h, p0);
    ContextAppend(h, p0);
    AttemptsAppend(h + p0, p1);
    ContextAppend(h + p0, p1);
    AttemptsAppend(h + p0 + p1, LastResortEvents(c, env, n2));
    ContextAppend(h + p0 + p1, LastResortEvents(c, env, n2));
  }

  // A locked run attempts exactly the hotkey's path, then in each of two passes the kept boot
  // options or else the main OS and the kept fallback candidates, then the last-resort recovery;
  // and every start is one of these attempts, loaded and under the watchdog. An unlocked run
  // attempts nothing.
  lemma AttemptsAreExact(c: Config, env: Env)
    ensures Attempts(RunEvents(c, env)) ==
              (if Locked(env) then HotkeyPaths(c, env) + PassPaths(c, env, 0) + PassPaths(c, env, 1) + LastResortPaths(c, env)
               else [])
    ensures StartsInContext(RunEvents(c, env))
  {
    hide PreLock;
    hide BootPhase;
    hide HotkeyPaths;
    hide PassPaths;
    hide LastResortPaths;
    PreLockIsPreLock(c, env);
    BootPhaseFacts(c, env);
    var before := PreLock(c, env) + LockEvents(env);
    assert forall i | 0 <= i < |before| :: IsPreLock(before[i]) || IsLock(before[i]);
    NothingAttempted(before, if Locked(env) then BootPhase(c, env) else []);
  }

  lemma NoneKept(hasSre: bool, paths: seq<Path>)
    ensures KeptOptions(hasSre, paths[..0]) == [] && KeptFallback(hasSre, paths[..0]) == []
  {
  }

  lemma KeptOptionsNext(hasSre: bool, paths: seq<Path>, i: nat)
    requires i < |paths|
    ensures KeptOptions(hasSre, paths[..i + 1]) ==
              if hasSre && (IsUsb(paths[i]) || IsFirmwareFile(paths[i])) then KeptOptions(hasSre, paths[..i])
              else KeptOptions(hasSre, paths[..i]) + [paths[i]]
  {
    assert paths[..i + 1][..i] == paths[..i] && KeptOptions(hasSre, paths[..i]) + [] == KeptOptions(hasSre, paths[..i]);
  }

  lemma KeptFallbackNext(hasSre: bool, paths: seq<Path>, i: nat)
    requires i < |paths|
    ensures KeptFallback(hasSre, paths[..i + 1]) ==
              if hasSre && IsUsb(paths[i]) then KeptFallback(hasSre, paths[..i])
              else KeptFallback(hasSre, paths[..i]) + [paths[i]]
  {
    assert paths[..i + 1][..i] == paths[..i] && KeptFallback(hasSre, paths[..i]) + [] == KeptFallback(hasSre, paths[..i]);
  }

  // Filtering drops exactly the options on USB media or firmware volumes, and drops nothing when no
  // recovery payload is present.
  lemma {:induction false} KeptOptionsFilter(hasSre: bool, paths: seq<Path>, p: Path)
    ensures multiset(KeptOptions(hasSre, paths))[p] == if hasSre && (IsUsb(p) || IsFirmwareFile(p)) then 0 else multiset(paths)[p]
    ensures !hasSre ==> KeptOptions(hasSre, paths) == paths
  {
    if paths != [] {
      var n := |paths| - 1;
      KeptOptionsFilter(hasSre, paths[..n], p);
      assert paths == paths[..n] + [paths[n]];
    }
  }

  // And it keeps the order: what is kept of an earlier part comes before what is kept of a later.
  lemma {:induction false} KeptOptionsInOrder(hasSre: bool, a: seq<Path>, b: seq<Path>)
    ensures KeptOptions(hasSre, a + b) == KeptOptions(hasSre, a) + KeptOptions(hasSre, b)
    decreases |b|
  {
    if b == [] {
      assert a + b == a;
    } else {
      var n := |b| - 1;
      assert (a + b)[..|a + b| - 1] == a + b[..n];
      KeptOptionsInOrder(hasSre, a, b[..n]);
      var last := if hasSre && (IsUsb(b[n]) || IsFirmwareFile(b[n])) then [] else [b[n]];
      assert KeptOptions(hasSre, a) + (KeptOptions(hasSre, b[..n]) + last)
          == (KeptOptions(hasSre, a) + KeptOptions(hasSre, b[..n])) + last;
    }
  }

  // The fallback filter drops exactly the candidates on USB media, under the same condition.
  lemma {:induction false} KeptFallbackFilter(hasSre: bool, paths: seq<Path>, p: Path)
    ensures multiset(KeptFallback(hasSre, paths))[p] == if hasSre && IsUsb(p) then 0 else multiset(paths)[p]
    ensures !hasSre ==> KeptFallback(hasSre, paths) == paths
  {
    if paths != [] {
      var n := |paths| - 1;
      KeptFallbackFilter(hasSre, paths[..n], p);
      assert paths == paths[..n] + [paths[n]];
    }
  }

  lemma {:induction false} KeptFallbackInOrder(hasSre: bool, a: seq<Path>, b: seq<Path>)
    ensures KeptFallback(hasSre, a + b) == KeptFallback(hasSre, a) + KeptFallback(hasSre, b)
    decreases |b|
  {
    if b == [] {
      assert a + b == a;
    } else {
      var n := |b| - 1;
      assert (a + b)[..|a + b| - 1] == a + b[..n];
      KeptFallbackInOrder(hasSre, a, b[..n]);
      var last := if hasSre && IsUsb(b[n]) then [] else [b[n]];
      assert KeptFallback(hasSre, a) + (KeptFallback(hasSre, b[..n]) + last)
          == (KeptFallback(hasSre, a) + KeptFallback(hasSre, b[..n])) + last;
    }
  }

  // ---- The recovery chainload -------------------------------------------------------------

  // The chainload path begins with the RAM disk's media vendor node, so the boot helper takes it
  // for a short-form path. It is loaded exactly when the filesystem's path has a partition node
  // that a single enumerated handle names; the unpartitioned volume of the recovery payload has
  // none, and its chainload always fails before the image is loaded.
  lemma ChainloadIsShortForm(r: Recovery, parses: Path -> bool, a: BootAnswer)
    requires ChainloadPath(r, parses).Some?
    ensures var path := ChainloadPath(r, parses).value;
            && IsPartial(path)
            && (FullPath(path, a).Ok? <==>
                  && FirstHardDrive(path) < |path| && a.handles.Ok?
                  && |Hits(a.handles.value, TryHardDrive(path[FirstHardDrive(path)]).value)| == 1)
            && (!HasPartition(path) ==> BootEvents(path, a) == [Attempt(path)])
  {
    var path := ChainloadPath(r, parses).value;
    assert path[0] == RAM_DISK[0];
    if !HasPartition(path) {
      assert FirstHardDrive(path) == |path|;
    }
  }

  // In particular a filesystem bound directly to the RAM disk, as the media is laid out, is never
  // booted.
  lemma RamDiskVolumeNeverLoads(a: BootAnswer)
    ensures BootEvents(BootFile(RAM_DISK), a) == [Attempt(BootFile(RAM_DISK))]
  {
    var path := BootFile(RAM_DISK);
    assert path == [RAM_DISK[0], FilePathNode(Units(DEFAULT_BOOT_FILE))];
    assert TryHardDrive(path[0]).None? && TryHardDrive(path[1]).None?;
    assert FirstHardDrive(path) == |path|;
    assert IsPartial(path);
  }

  // ---- The boot manager -------------------------------------------------------------------

  class SreBootManager {
    const c: Config
    const env: Env
    /** Boot attempts and recovery runs made so far. */
    var attempts: nat
    ghost var trace: seq<Event>

    constructor (c: Config, env: Env)
      ensures this.c == c && this.env == env && attempts == 0 && trace == []
    {
      this.c, this.env, attempts, trace := c, env, 0, [];
    }

    method Emit(e: Event)
      modifies this`trace
      ensures trace == old(trace) + [e]
    {
      trace := trace + [e];
    }

    /** `boot_from_device_path`: expand, load, arm the watchdog, start, disarm. */
    method BootFromDevicePath(path: Path)
      modifies this
      ensures trace == old(trace) + BootEvents(path, env.boot(old(attempts))) && attempts == old(attempts) + 1
      ensures var a := env.boot(old(attempts));
              var full := if IsPartial(path) then Expand(path, a.handles) else Ok(path);
              trace == old(trace) +
                       if full.Err? then [Attempt(path)]
                       else if !a.load then [Attempt(path), Load(full.value)]
                       else if !a.watchdog then [Attempt(path), Load(full.value), Watchdog(300)]
                       else [Attempt(path), Load(full.value), Watchdog(300), Start(full.value), Watchdog(0)]
    {
      hide Expand;
      hide IsPartial;
      ghost var start := trace;
      var answer := env.boot(attempts);
      attempts := attempts + 1;
      Emit(Attempt(path));
      var full := Ok(path);
      if IsPartial(path) {
        full := ExpandDevicePath(path, answer.handles);
      }
      if full.Err? {
        return;
      }
      Emit(Load(full.value));
      if !answer.load {
        return;
      }
      Emit(Watchdog(WATCHDOG_SECONDS));
      if !answer.watchdog {
        return;
      }
      Emit(Start(full.value));
      Emit(Watchdog(0));
      assert trace == start + BootEvents(path, answer);
    }

    /** One attempt, announced by a ReadyToBoot signal or not. */
    method TryOne(path: Path, announce: bool)
      modifies this
      ensures trace == old(trace) + OneAttempt(env, path, old(attempts), announce) && attempts == old(attempts) + 1
    {
      ghost var start := trace;
      if announce {
        Emit(ReadyToBoot);
      }
      Join3(start, if announce then [ReadyToBoot] else [], BootEvents(path, env.boot(attempts)));
      BootFromDevicePath(path);
    }

    method TryAll(paths: seq<Path>, announce: bool)
      modifies this
      ensures trace == old(trace) + AttemptAll(env, paths, old(attempts), announce)
      ensures attempts == old(attempts) + |paths|
    {
      hide OneAttempt;
      ghost var start, k := trace, attempts;
      for i := 0 to |paths|
        invariant trace == start + AttemptAll(env, paths[..i], k, announce)
        invariant attempts == k + i
      {
        assert paths[..i + 1] == paths[..i] + [paths[i]];
        AttemptNext(env, paths[..i], paths[i], k, announce);
        Join3(start, AttemptAll(env, paths[..i], k, announce), OneAttempt(env, paths[i], k + i, announce));
        TryOne(paths[i], announce);
      }
      assert paths[..|paths|] == paths;
    }

    /** `run_sre_flow`, recovery number `n`. */
    method RunSreFlow(n: nat)
      modifies this
      ensures trace == old(trace) + ([ConnectAll] + AttemptAll(env, RecoveryPaths(env.recovery(n), env.parses), old(attempts), false))
      ensures attempts == old(attempts) + |RecoveryPaths(env.recovery(n), env.parses)|
    {
      Join3(trace, [ConnectAll], AttemptAll(env, RecoveryPaths(env.recovery(n), env.parses), attempts, false));
      Emit(ConnectAll);
      TryAll(RecoveryPaths(env.recovery(n), env.parses), false);
    }

    /** `run_pre_lock_phase` and its work. */
    method PreLockPhase()
      modifies this`trace
      ensures trace == old(trace) + PreLock(c, env)
    {
      hide Dispatches;
      Emit(StartOfBds);
      if c.dfciSignal {
        Emit(DfciStart);
      }
      DispatchAll();
      Emit(ConnectSkipUsb);
      if c.capsules {
        Emit(ProcessCapsules);
      }
    }

    /** The dispatcher loop, as often as it takes. */
    method DispatchAll()
      modifies this`trace
      ensures trace == old(trace) + Dispatches(env.dispatches + 1)
    {
      ghost var start := trace;
      for i := 0 to env.dispatches + 1
        invariant trace == start + Dispatches(i)
      {
        Emit(DispatchDrivers);
      }
    }

    /** `enter_locked_boot`: EndOfDxe, then ReadyToLock; a failure of either yields no capability. */
    method EnterLockedBoot() returns (locked: bool)
      modifies this`trace
      ensures locked == Locked(env) && trace == old(trace) + LockEvents(env)
    {
      if !env.endOfDxe.create {
        return false;
      }
      Emit(EndOfDxe(env.endOfDxe.signal && env.endOfDxe.close));
      if !env.endOfDxe.signal || !env.endOfDxe.close {
        return false;
      }
      Emit(ReadyToLock(env.readyToLock));
      return env.readyToLock;
    }

    method HotkeyPhase()
      requires attempts == 0
      modifies this
      ensures trace == old(trace) + HotkeyEvents(c, env) && attempts == |HotkeyPaths(c, env)|
    {
      if env.hotkey == NoHotkey {
        return;
      }
      ghost var start := trace;
      Emit(ConnectAll);
      Emit(DiscoverConsoles);
      assert trace == start + [ConnectAll, DiscoverConsoles];
      HotkeyDispatch();
      Join3(start, [ConnectAll, DiscoverConsoles], HotkeyAttempt(c, env));
    }

    method HotkeyDispatch()
      requires attempts == 0 && env.hotkey != NoHotkey
      modifies this
      ensures trace == old(trace) + HotkeyAttempt(c, env) && attempts == |HotkeyPaths(c, env)|
    {
      match env.hotkey {
        case VolumeUp =>
          if c.sreApp.Some? {
            TryAll([c.sreApp.value], true);
          } else {
            Join3(trace, [ReadyToBoot], [ConnectAll] + AttemptAll(env, HotkeyPaths(c, env), 0, false));
            Emit(ReadyToBoot);
            RunSreFlow(0);
          }
        case VolumeDown =>
          var usb := FindFirstUsb(env.usbVolumes, env.parses);
          if usb.Some? {
            TryAll([usb.value], true);
          } else if c.frontpage.Some? {
            TryAll([c.frontpage.value], true);
          } else {
            assert trace == trace + [];
          }
      }
    }

    /** One pass over the boot options. */
    method Pass(pass: nat, hasSre: bool)
      requires hasSre == HasSre(c, env)
      modifies this
      ensures trace == old(trace) + PassEvents(c, env, pass, old(attempts))
      ensures attempts == old(attempts) + |PassPaths(c, env, pass)|
    {
      hide OptionPaths;
      hide FallbackPaths;
      hide AttemptAll;
      ghost var start, k := trace, attempts;
      ghost var connect: seq<Event> := if pass == 1 then [ConnectAll] else [];
      if pass == 1 {
        Emit(ConnectAll);
      }
      assert trace == start + connect;
      var triedAny := TryOptions(pass, hasSre);
      if triedAny {
        Join3(start, connect, AttemptAll(env, OptionPaths(c, env, pass), k, true));
      } else {
        NoneTried(start + connect, k, true);
        TryMainAndFallback(pass, hasSre);
        Join3(start, connect, NoOptionEvents(c, env, pass, k));
      }
    }

    lemma NoneTried(t: seq<Event>, k: nat, announce: bool)
      ensures t + AttemptAll(env, [], k, announce) == t
    {
    }

    /** A pass without boot options: the main OS, then the fallback candidates. */
    method TryMainAndFallback(pass: nat, hasSre: bool)
      requires hasSre == HasSre(c, env)
      modifies this
      ensures trace == old(trace) + NoOptionEvents(c, env, pass, old(attempts))
      ensures attempts == old(attempts) + 1 + |FallbackPaths(c, env, pass)|
    {
      hide AttemptAll;
      hide FallbackPaths;
      Join3(trace, AttemptAll(env, [c.mainOs], attempts, true),
            AttemptAll(env, FallbackPaths(c, env, pass), attempts + 1, false));
      TryAll([c.mainOs], true);
      TryFallback(pass, hasSre);
    }

    method TryOptions(pass: nat, hasSre: bool) returns (triedAny: bool)
      requires hasSre == HasSre(c, env)
      modifies this
      ensures triedAny == (OptionPaths(c, env, pass) != [])
      ensures trace == old(trace) + AttemptAll(env, OptionPaths(c, env, pass), old(attempts), true)
      ensures attempts == old(attempts) + |OptionPaths(c, env, pass)|
    {
      triedAny := false;
      NoneTried(trace, attempts, true);
      var found := env.discovered(pass);
      if found.Ok? {
        hide AttemptAll;
        hide KeptOptions;
        triedAny := TryOptionPaths(found.value, hasSre);
      }
    }

    /** The loop over discovered options. */
    method TryOptionPaths(paths: seq<Path>, hasSre: bool) returns (triedAny: bool)
      modifies this
      ensures triedAny == (KeptOptions(hasSre, paths) != [])
      ensures trace == old(trace) + AttemptAll(env, KeptOptions(hasSre, paths), old(attempts), true)
      ensures attempts == old(attempts) + |KeptOptions(hasSre, paths)|
    {
      hide *;
      triedAny := false;
      ghost var start, k := trace, attempts;
      NoneTried(trace, attempts, true);
      NoneKept(hasSre, paths);
      for i := 0 to |paths|
        invariant triedAny == (KeptOptions(hasSre, paths[..i]) != [])
        invariant trace == start + AttemptAll(env, KeptOptions(hasSre, paths[..i]), k, true)
        invariant attempts == k + |KeptOptions(hasSre, paths[..i])|
      {
        ghost var kept := KeptOptions(hasSre, paths[..i]);
        KeptOptionsNext(hasSre, paths, i);
        if hasSre && IsUsb(paths[i]) {
          continue;
        }
        if hasSre && IsFirmwareFile(paths[i]) {
          continue;
        }
        triedAny := true;
        AttemptNext(env, kept, paths[i], k, true);
        Join3(start, AttemptAll(env, kept, k, true), OneAttempt(env, paths[i], k + |kept|, true));
        TryOne(paths[i], true);
      }
      assert paths[..|paths|] == paths;
    }

    method TryFallback(pass: nat, hasSre: bool)
      requires hasSre == HasSre(c, env)
      modifies this
      ensures trace == old(trace) + AttemptAll(env, FallbackPaths(c, env, pass), old(attempts), false)
      ensures attempts == old(attempts) + |FallbackPaths(c, env, pass)|
    {
      NoneTried(trace, attempts, false);
      hide Fallback;
      hide AttemptAll;
      hide KeptFallback;
      var found := FallbackBootOptions(c.policy, env.secureBoot(pass), env.setupMode(pass), env.volumes(pass));
      if found.Ok? {
        TryFallbackPaths(found.value, hasSre);
      }
    }

    /** The loop over fallback candidates. */
    method TryFallbackPaths(paths: seq<Path>, hasSre: bool)
      modifies this
      ensures trace == old(trace) + AttemptAll(env, KeptFallback(hasSre, paths), old(attempts), false)
      ensures attempts == old(attempts) + |KeptFallback(hasSre, paths)|
    {
      hide *;
      ghost var start, k := trace, attempts;
      NoneTried(trace, attempts, false);
      NoneKept(hasSre, paths);
      for i := 0 to |paths|
        invariant trace == start + AttemptAll(env, KeptFallback(hasSre, paths[..i]), k, false)
        invariant attempts == k + |KeptFallback(hasSre, paths[..i])|
      {
        ghost var kept := KeptFallback(hasSre, paths[..i]);
        KeptFallbackNext(hasSre, paths, i);
        if hasSre && IsUsb(paths[i]) {
          continue;
        }
        AttemptNext(env, kept, paths[i], k, false);
        Join3(start, AttemptAll(env, kept, k, false), OneAttempt(env, paths[i], k + |kept|, false));
        TryOne(paths[i], false);
      }
      assert paths[..|paths|] == paths;
    }

    /** `execute`: it never returns success. */
    method Execute() returns (st: Status)
      requires attempts == 0 && trace == []
      modifies this
      ensures trace == RunEvents(c, env)
      ensures Locked(env) ==> st == NotFound
      ensures st != Success
    {
      hide PreLock;
      hide LockEvents;
      hide BootPhase;
      PreLockPhase();
      var locked := EnterLockedBoot();
      if !locked {
        assert trace == trace + [];
        return DeviceError;
      }
      BootAll();
      Join3(PreLock(c, env), LockEvents(env), BootPhase(c, env));
      return NotFound;
    }

    method LastResort(hasSre: bool)
      requires hasSre == HasSre(c, env)
      modifies this
      ensures trace == old(trace) + LastResortEvents(c, env, old(attempts))
    {
      if hasSre {
        RunSreFlow(1);
      } else {
        assert trace == trace + [];
      }
    }

    method BootAll()
      requires attempts == 0
      modifies this
      ensures trace == old(trace) + BootPhase(c, env)
    {
      hide HotkeyEvents;
      hide HotkeyPaths;
      hide PassEvents;
      hide PassPaths;
      hide LastResortEvents;
      ghost var start := trace;
      HotkeyPhase();
      ghost var n0 := attempts;
      var hasSre := c.bpSreFallback && env.hasSrePayload;
      Pass(0, hasSre);
      ghost var n1 := attempts;
      Pass(1, hasSre);
      ghost var n2 := attempts;
      LastResort(hasSre);
      Join5(start, HotkeyEvents(c, env), PassEvents(c, env, 0, n0), PassEvents(c, env, 1, n1), LastResortEvents(c, env, n2));
    }
  }
}
