/** Which filesystem volumes may be booted outside the provisioned boot options, and the list of
    candidates they yield. */
module BootSource {
  import opened Bytes
  import opened Efi
  import opened DevicePath
  import opened ShortForm

  const TYPE_MESSAGING := 0x03
  const SUBTYPE_USB := 0x05
  const SUBTYPE_USB_CLASS := 0x0F
  const SUBTYPE_USB_WWID := 0x10

  datatype SecureBootState = Enabled | Disabled | SetupMode

  datatype Policy = Policy(approved: seq<Path>, removable: bool, whenDisabled: bool, inSetupMode: bool)

  predicate IsUsbNode(n: Node) {
    n.kind == TYPE_MESSAGING && (n.sub == SUBTYPE_USB || n.sub == SUBTYPE_USB_CLASS || n.sub == SUBTYPE_USB_WWID)
  }

  predicate IsUsb(path: Path) {
    exists i | 0 <= i < |path| :: IsUsbNode(path[i])
  }

  predicate HasPartition(path: Path) {
    exists i | 0 <= i < |path| :: TryHardDrive(path[i]).Some?
  }

  /** Some partition node of each path has the same identity. */
  predicate SharePartition(a: Path, b: Path) {
    exists i, j | 0 <= i < |a| && 0 <= j < |b| :: TryHardDrive(a[i]).Some? && TryHardDrive(a[i]) == TryHardDrive(b[j])
  }

  predicate HasSources(p: Policy) {
    p.removable || exists i | 0 <= i < |p.approved| :: HasPartition(p.approved[i])
  }

  predicate AllowsSecurityState(p: Policy, s: SecureBootState) {
    match s
    case Enabled => true
    case Disabled => p.whenDisabled
    case SetupMode => p.inSetupMode
  }

  predicate AllowsDevice(p: Policy, candidate: Path) {
    if IsUsb(candidate) then p.removable
    else exists i | 0 <= i < |p.approved| :: SharePartition(p.approved[i], candidate)
  }

  // A policy has sources exactly when there is a device it allows: without sources no path is ever
  // allowed, and with them some path is.
  lemma SourcesMeanSomeDevice(p: Policy)
    ensures HasSources(p) <==> exists path :: AllowsDevice(p, path)
  {
    hide TryHardDrive;
    if exists path :: AllowsDevice(p, path) {
      var path :| AllowsDevice(p, path);
      if !p.removable {
        var i :| 0 <= i < |p.approved| && SharePartition(p.approved[i], path);
        assert HasPartition(p.approved[i]);
      }
    }
    if p.removable {
      var usb := [Node(TYPE_MESSAGING, SUBTYPE_USB, [])];
      assert IsUsbNode(usb[0]);
      assert AllowsDevice(p, usb);
    } else if HasSources(p) {
      var i :| 0 <= i < |p.approved| && HasPartition(p.approved[i]);
      var k :| 0 <= k < |p.approved[i]| && TryHardDrive(p.approved[i][k]).Some?;
      var path := [p.approved[i][k]];
      NotUsb(path[0]);
      assert TryHardDrive(p.approved[i][k]) == TryHardDrive(path[0]);
      assert SharePartition(p.approved[i], path);
      assert AllowsDevice(p, path);
    }
  }

  lemma NotUsb(n: Node)
    requires TryHardDrive(n).Some?
    ensures !IsUsbNode(n)
  {
  }

  // ---- Secure Boot state ------------------------------------------------------------------

  function StateByte(read: Result<seq<byte>, Status>): Result<byte, Status> {
    match read
    case Err(e) => Err(e)
    case Ok(v) => if |v| == 1 && v[0] <= 1 then Ok(v[0]) else Err(SecurityViolation)
  }

  /** From the SecureBoot and SetupMode variables as they were read; anything unexpected is refused. */
  function SecureBoot(secureBoot: Result<seq<byte>, Status>, setupMode: Result<seq<byte>, Status>): Result<SecureBootState, Status> {
    match StateByte(secureBoot)
    case Err(e) => Err(e)
    case Ok(sb) =>
      match StateByte(setupMode)
      case Err(e) => Err(e)
      case Ok(sm) =>
        if sb == 1 && sm == 0 then Ok(Enabled)
        else if sb == 0 && sm == 0 then Ok(Disabled)
        else if sb == 0 && sm == 1 then Ok(SetupMode)
        else Err(SecurityViolation)
  }

  // ---- Fallback options -------------------------------------------------------------------

  function Units(s: string): (u: seq<u16>)
    ensures |u| == |s|
  {
    seq(|s|, i requires 0 <= i < |s| => if s[i] as int < 0x1_0000 then s[i] as int else 0)
  }

  // Every character of a boot file's name is one unit.
  lemma UnitsAreCharacters(s: string)
    requires forall i | 0 <= i < |s| :: s[i] as int < 0x1_0000
    ensures forall i | 0 <= i < |s| :: Units(s)[i] == s[i] as int
  {
  }

  const OS_LOADERS: seq<string> := ["\\EFI\\Microsoft\\Boot\\bootmgfw.efi", "\\EFI\\Boot\\bootx64.efi"]

  /** The volumes, in enumeration order, whose path can be read and which the policy allows. */
  function Volumes(p: Policy, handles: seq<Option<Path>>): (v: seq<Path>)
    ensures forall i | 0 <= i < |v| :: AllowsDevice(p, v[i])
  {
    if handles == [] then []
    else
      (match handles[0]
       case None => []
       case Some(path) => if AllowsDevice(p, path) then [path] else [])
      + Volumes(p, handles[1..])
  }

  function Candidate(volume: Path, loader: string): Path {
    volume + [FilePathNode(Units(loader))]
  }

  /** `options` tries every volume with the first loader before any volume with the second. */
  ghost predicate LoaderMajor(volumes: seq<Path>, options: seq<Path>) {
    && |options| == 2 * |volumes|
    && forall i | 0 <= i < |volumes| ::
         && options[i] == Candidate(volumes[i], OS_LOADERS[0])
         && options[|volumes| + i] == Candidate(volumes[i], OS_LOADERS[1])
  }

  /** Why there are no fallback options, or the allowed volumes they are built from. */
  function FallbackVolumes(p: Policy, secureBoot: Result<seq<byte>, Status>, setupMode: Result<seq<byte>, Status>,
                           handles: Result<seq<Option<Path>>, Status>): Result<seq<Path>, Status> {
    if !HasSources(p) then Err(NotFound)
    else match SecureBoot(secureBoot, setupMode)
      case Err(e) => Err(e)
      case Ok(state) =>
        if !AllowsSecurityState(p, state) then Err(SecurityViolation)
        else match handles
          case Err(e) => Err(e)
          case Ok(hs) => if Volumes(p, hs) == [] then Err(NotFound) else Ok(Volumes(p, hs))
  }

  function Product(volumes: seq<Path>): (options: seq<Path>)
    ensures LoaderMajor(volumes, options)
  {
    seq(2 * |volumes|, i requires 0 <= i < 2 * |volumes| =>
      if i < |volumes| then Candidate(volumes[i], OS_LOADERS[0]) else Candidate(volumes[i - |volumes|], OS_LOADERS[1]))
  }

  function Fallback(p: Policy, secureBoot: Result<seq<byte>, Status>, setupMode: Result<seq<byte>, Status>,
                    handles: Result<seq<Option<Path>>, Status>): Result<seq<Path>, Status> {
    match FallbackVolumes(p, secureBoot, setupMode, handles)
    case Err(e) => Err(e)
    case Ok(volumes) => Ok(Product(volumes))
  }

  /** `fallback_boot_options`: the loader loop around the volume loop. */
  method FallbackBootOptions(p: Policy, secureBoot: Result<seq<byte>, Status>, setupMode: Result<seq<byte>, Status>,
                             handles: Result<seq<Option<Path>>, Status>) returns (r: Result<seq<Path>, Status>)
    ensures r == Fallback(p, secureBoot, setupMode, handles)
  {
    if !HasSources(p) {
      return Err(NotFound);
    }
    var state := SecureBoot(secureBoot, setupMode);
    if state.Err? {
      return Err(state.error);
    }
    if !AllowsSecurityState(p, state.value) {
      return Err(SecurityViolation);
    }
    if handles.Err? {
      return Err(handles.error);
    }
    var volumes := Volumes(p, handles.value);
    if volumes == [] {
      return Err(NotFound);
    }
    var options := Combine(volumes);
    return Ok(options);
  }

  method Combine(volumes: seq<Path>) returns (options: seq<Path>)
    ensures options == Product(volumes)
  {
    options := [];
    for l := 0 to |OS_LOADERS|
      invariant |options| == (if l == 0 then 0 else if l == 1 then |volumes| else 2 * |volumes|)
      invariant options <= Product(volumes)
    {
      ghost var base := |options|;
      for v := 0 to |volumes|
        invariant |options| == base + v && options <= Product(volumes)
      {
        NextOption(volumes, options, v, l);
        options := options + [Candidate(volumes[v], OS_LOADERS[l])];
      }
    }
  }

  lemma NextOption(volumes: seq<Path>, options: seq<Path>, v: nat, l: nat)
    requires v < |volumes| && l < 2 && |options| == (if l == 0 then v else |volumes| + v)
    requires options <= Product(volumes)
    ensures options + [Candidate(volumes[v], OS_LOADERS[l])] <= Product(volumes)
  {
    assert Product(volumes)[|options|] == Candidate(volumes[v], OS_LOADERS[l]);
  }

  // Every fallback option is on a volume the policy allows, in a Secure Boot state it allows.
  lemma FallbackIsAuthorized(p: Policy, secureBoot: Result<seq<byte>, Status>, setupMode: Result<seq<byte>, Status>,
                             handles: Result<seq<Option<Path>>, Status>, k: nat)
    requires var r := Fallback(p, secureBoot, setupMode, handles); r.Ok? && k < |r.value|
    ensures HasSources(p)
    ensures SecureBoot(secureBoot, setupMode).Ok? && AllowsSecurityState(p, SecureBoot(secureBoot, setupMode).value)
    ensures var option := Fallback(p, secureBoot, setupMode, handles).value[k];
            option != [] && AllowsDevice(p, option[..|option| - 1])
  {
    var volumes := FallbackVolumes(p, secureBoot, setupMode, handles).value;
    var options := Product(volumes);
    var v := if k < |volumes| then k else k - |volumes|;
    assert options[k] == Candidate(volumes[v], OS_LOADERS[if k < |volumes| then 0 else 1]);
    assert options[k][..|options[k]| - 1] == volumes[v];
  }

  // ---- What is allowed, on nodes and bytes ------------------------------------------------

  /** A node of a USB device: messaging type 3, subtype USB, USB class or USB WWID. */
  ghost predicate UsbNode(n: Node) {
    n.kind == 3 && (n.sub == 5 || n.sub == 15 || n.sub == 16)
  }

  lemma UsbIsExact(path: Path)
    ensures IsUsb(path) <==> exists i | 0 <= i < |path| :: UsbNode(path[i])
  {
    forall i | 0 <= i < |path| ensures UsbNode(path[i]) <==> IsUsbNode(path[i]) {
    }
  }

  /** Some partition node of one approved path and some node of the volume's name one partition. */
  ghost predicate Approved(p: Policy, volume: Path) {
    exists i, a, b | 0 <= i < |p.approved| && 0 <= a < |p.approved[i]| && 0 <= b < |volume| ::
      SamePartition(p.approved[i][a], volume[b])
  }

  /** A USB volume is allowed by the removable flag alone, any other by its partition alone. */
  ghost predicate AllowedVolume(p: Policy, volume: Option<Path>) {
    && volume.Some?
    && if exists i | 0 <= i < |volume.value| :: UsbNode(volume.value[i]) then p.removable else Approved(p, volume.value)
  }

  /** The policy names some device: removable media, or a path with a partition node. */
  ghost predicate NamesDevice(p: Policy) {
    p.removable || exists i, k | 0 <= i < |p.approved| && 0 <= k < |p.approved[i]| :: PartitionNode(p.approved[i][k])
  }

  lemma NamesDeviceIsExact(p: Policy)
    ensures NamesDevice(p) <==> HasSources(p)
  {
    hide TryHardDrive;
    hide PartitionNode;
    forall i, k | 0 <= i < |p.approved| && 0 <= k < |p.approved[i]|
      ensures PartitionNode(p.approved[i][k]) <==> TryHardDrive(p.approved[i][k]).Some?
    {
      HardDriveIdentity(p.approved[i][k], p.approved[i][k]);
    }
    if HasSources(p) && !p.removable {
      var i :| 0 <= i < |p.approved| && HasPartition(p.approved[i]);
      var k :| 0 <= k < |p.approved[i]| && TryHardDrive(p.approved[i][k]).Some?;
      assert PartitionNode(p.approved[i][k]);
    }
    if i, k :| 0 <= i < |p.approved| && 0 <= k < |p.approved[i]| && PartitionNode(p.approved[i][k]) {
      assert HasPartition(p.approved[i]);
    }
  }

  lemma SharedIsSame(a: Node, b: Node)
    ensures TryHardDrive(a).Some? && TryHardDrive(a) == TryHardDrive(b) <==> SamePartition(a, b)
  {
    hide TryHardDrive;
    HardDriveIdentity(a, b);
    HardDriveIdentity(b, b);
  }

  lemma ApprovedIsShared(p: Policy, volume: Path)
    ensures Approved(p, volume) <==> exists i | 0 <= i < |p.approved| :: SharePartition(p.approved[i], volume)
  {
    hide TryHardDrive;
    hide SamePartition;
    if Approved(p, volume) {
      var i, a, b :| 0 <= i < |p.approved| && 0 <= a < |p.approved[i]| && 0 <= b < |volume|
                     && SamePartition(p.approved[i][a], volume[b]);
      SharedIsSame(p.approved[i][a], volume[b]);
      assert SharePartition(p.approved[i], volume);
    }
    if i :| 0 <= i < |p.approved| && SharePartition(p.approved[i], volume) {
      var a, b :| 0 <= a < |p.approved[i]| && 0 <= b < |volume|
                  && TryHardDrive(p.approved[i][a]).Some? && TryHardDrive(p.approved[i][a]) == TryHardDrive(volume[b]);
      SharedIsSame(p.approved[i][a], volume[b]);
    }
  }

  lemma AllowedIsExact(p: Policy, volume: Path)
    ensures AllowedVolume(p, Some(volume)) <==> AllowsDevice(p, volume)
  {
    hide UsbNode;
    hide IsUsb;
    hide Approved;
    hide SharePartition;
    UsbIsExact(volume);
    ApprovedIsShared(p, volume);
  }

  /** `at` lists, in order, exactly the positions of the allowed volumes. */
  ghost predicate AllowedAt(p: Policy, handles: seq<Option<Path>>, at: seq<nat>) {
    && (forall i | 0 <= i < |at| :: at[i] < |handles| && AllowedVolume(p, handles[at[i]]))
    && (forall i, j | 0 <= i < j < |at| :: at[i] < at[j])
    && (forall k | 0 <= k < |handles| && AllowedVolume(p, handles[k]) :: k in at)
  }

  lemma {:induction false} VolumesAppend(p: Policy, a: seq<Option<Path>>, h: Option<Path>)
    ensures Volumes(p, a + [h]) == Volumes(p, a) + Volumes(p, [h])
  {
    hide AllowsDevice;
    if a == [] {
      assert a + [h] == [h];
    } else {
      assert (a + [h])[0] == a[0] && (a + [h])[1..] == a[1..] + [h];
      VolumesAppend(p, a[1..], h);
    }
  }

  lemma OneVolume(p: Policy, h: Option<Path>)
    ensures Volumes(p, [h]) == if AllowedVolume(p, h) then [h.value] else []
  {
    hide AllowsDevice;
    assert [h][1..] == [];
    if h.Some? { AllowedIsExact(p, h.value); }
  }

  /** `volumes` are the handles at the positions `at`. */
  ghost predicate Picks(handles: seq<Option<Path>>, at: seq<nat>, volumes: seq<Path>) {
    |volumes| == |at| && forall i | 0 <= i < |at| :: at[i] < |handles| && handles[at[i]] == Some(volumes[i])
  }

  lemma NextPick(handles: seq<Option<Path>>, at: seq<nat>, volumes: seq<Path>, n: nat)
    requires |handles| == n + 1 && Picks(handles[..n], at, volumes)
    ensures Picks(handles, at, volumes)
    ensures handles[n].Some? ==> Picks(handles, at + [n], volumes + [handles[n].value])
  {
    var first := handles[..n];
    assert forall i | 0 <= i < |at| :: first[at[i]] == handles[at[i]];
  }

  // No allowed volume is missed, none is repeated, and they keep their order.
  lemma {:induction false} VolumesAreAllowed(p: Policy, handles: seq<Option<Path>>) returns (at: seq<nat>)
    ensures AllowedAt(p, handles, at)
    ensures Picks(handles, at, Volumes(p, handles))
    decreases |handles|
  {
    hide AllowedVolume;
    hide AllowsDevice;
    if handles == [] {
      at := [];
    } else {
      hide Volumes;
      hide AllowedAt;
      hide Picks;
      var n := |handles| - 1;
      var before := VolumesAreAllowed(p, handles[..n]);
      assert handles == handles[..n] + [handles[n]];
      VolumesAppend(p, handles[..n], handles[n]);
      OneVolume(p, handles[n]);
      SomeVolume(p, handles[n]);
      NextPick(handles, before, Volumes(p, handles[..n]), n);
      if AllowedVolume(p, handles[n]) {
        NextAllowed(p, handles, before, n);
        at := before + [n];
      } else {
        NextRefused(p, handles, before, n);
        at := before;
        assert Volumes(p, handles) == Volumes(p, handles[..n]);
      }
    }
  }

  lemma SomeVolume(p: Policy, h: Option<Path>)
    ensures AllowedVolume(p, h) ==> h.Some?
  {
  }

  lemma NextAllowed(p: Policy, handles: seq<Option<Path>>, before: seq<nat>, n: nat)
    requires |handles| == n + 1 && AllowedAt(p, handles[..n], before) && AllowedVolume(p, handles[n])
    ensures AllowedAt(p, handles, before + [n])
  {
    hide AllowedVolume;
    var first, at := handles[..n], before + [n];
    forall i | 0 <= i < |at| ensures at[i] < |handles| && AllowedVolume(p, handles[at[i]]) {
      if i < n && i < |before| { assert first[before[i]] == handles[before[i]]; }
    }
    forall k | 0 <= k < |handles| && AllowedVolume(p, handles[k]) ensures k in at {
      if k == n { assert at[|before|] == n; } else { assert first[k] == handles[k]; }
    }
  }

  lemma NextRefused(p: Policy, handles: seq<Option<Path>>, before: seq<nat>, n: nat)
    requires |handles| == n + 1 && AllowedAt(p, handles[..n], before) && !AllowedVolume(p, handles[n])
    ensures AllowedAt(p, handles, before)
  {
    hide AllowedVolume;
    var first := handles[..n];
    forall i | 0 <= i < |before| ensures before[i] < |handles| && AllowedVolume(p, handles[before[i]]) {
      assert first[before[i]] == handles[before[i]];
    }
    forall k | 0 <= k < |handles| && AllowedVolume(p, handles[k]) ensures k in before {
      assert k < n && first[k] == handles[k];
    }
  }

  /** The candidates of an enumeration: the first loader on every allowed volume in order, then the
      second on every one; without allowed volumes there is nothing to boot. */
  ghost predicate Listed(p: Policy, handles: Result<seq<Option<Path>>, Status>, r: Result<seq<Path>, Status>) {
    if handles.Err? then r == Err(handles.error)
    else exists at :: AllowedAt(p, handles.value, at) && ListedAt(handles.value, at, r)
  }

  ghost predicate ListedAt(hs: seq<Option<Path>>, at: seq<nat>, r: Result<seq<Path>, Status>)
    requires forall i | 0 <= i < |at| :: at[i] < |hs| && hs[at[i]].Some?
  {
    if at == [] then r == Err(NotFound)
    else
      && r.Ok? && |r.value| == 2 * |at|
      && forall i | 0 <= i < |at| ::
           && r.value[i] == hs[at[i]].value + [FilePathNode(Units("\\EFI\\Microsoft\\Boot\\bootmgfw.efi"))]
           && r.value[|at| + i] == hs[at[i]].value + [FilePathNode(Units("\\EFI\\Boot\\bootx64.efi"))]
  }

  lemma ProductIsListed(p: Policy, hs: seq<Option<Path>>)
    ensures Listed(p, Ok(hs), if Volumes(p, hs) == [] then Err(NotFound) else Ok(Product(Volumes(p, hs))))
  {
    hide AllowedVolume;
    hide AllowsDevice;
    hide Volumes;
    hide Product;
    hide Units;
    var at := VolumesAreAllowed(p, hs);
    var volumes := Volumes(p, hs);
    var r: Result<seq<Path>, Status> := if volumes == [] then Err(NotFound) else Ok(Product(volumes));
    assert ListedAt(hs, at, r);
  }

  lemma NotEnumerated(p: Policy, handles: Result<seq<Option<Path>>, Status>)
    requires handles.Err?
    ensures Listed(p, handles, Err(handles.error))
  {
  }

  /** A state variable as it was read: one byte, 0 or 1. */
  ghost predicate Reads(read: Result<seq<byte>, Status>, b: byte) {
    read.Ok? && |read.value| == 1 && read.value[0] == b
  }

  // The authorization law, on the variables as read. With Secure Boot on (1, 0) the two state flags
  // do not matter; off (0, 0) and in setup mode (0, 1) each needs its own flag; anything else, and
  // any malformed variable, is a security violation, and a failed read is the answer.
  lemma FallbackLaw(p: Policy, secureBoot: Result<seq<byte>, Status>, setupMode: Result<seq<byte>, Status>,
                    handles: Result<seq<Option<Path>>, Status>)
    ensures var r := Fallback(p, secureBoot, setupMode, handles);
            if !NamesDevice(p) then r == Err(NotFound)
            else if secureBoot.Err? then r == Err(secureBoot.error)
            else if !Reads(secureBoot, 0) && !Reads(secureBoot, 1) then r == Err(SecurityViolation)
            else if setupMode.Err? then r == Err(setupMode.error)
            else if Reads(secureBoot, 1) && Reads(setupMode, 0) then Listed(p, handles, r)
            else if Reads(secureBoot, 0) && Reads(setupMode, 0) && p.whenDisabled then Listed(p, handles, r)
            else if Reads(secureBoot, 0) && Reads(setupMode, 1) && p.inSetupMode then Listed(p, handles, r)
            else r == Err(SecurityViolation)
  {
    hide Listed;
    hide Volumes;
    hide Product;
    hide HasSources;
    hide NamesDevice;
    NamesDeviceIsExact(p);
    var r := Fallback(p, secureBoot, setupMode, handles);
    if HasSources(p) && SecureBoot(secureBoot, setupMode).Ok?
       && AllowsSecurityState(p, SecureBoot(secureBoot, setupMode).value) {
      if handles.Ok? { ProductIsListed(p, handles.value); } else { NotEnumerated(p, handles); }
    }
  }
}
