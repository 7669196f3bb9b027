/** Expansion of a short-form device path by the partition it names. Paths are lists of nodes
    without the closing END_ENTIRE. */
module ShortForm {
  import opened Bytes
  import opened Efi
  import opened DevicePath

  const TYPE_HARDWARE := 0x01
  const TYPE_ACPI := 0x02
  const SUBTYPE_HARD_DRIVE := 0x01
  const SUBTYPE_FIRMWARE_FILE := 0x06
  const SUBTYPE_FIRMWARE_VOLUME := 0x07
  const HARD_DRIVE_BODY_BYTES := 38

  type Path = seq<Node>

  /** The identity of a partition in its HardDrive node. */
  datatype Partition = Partition(number: u32, format: byte, signatureType: byte, signature: seq<byte>)

  /** A HardDrive node: number, start, size, signature, format and signature type (section 10.3.5.1
      of the UEFI Specification). */
  function TryHardDrive(n: Node): Option<Partition> {
    if n.kind == TYPE_MEDIA && n.sub == SUBTYPE_HARD_DRIVE && |n.body| == HARD_DRIVE_BODY_BYTES then
      Some(Partition(FromLe32(n.body[..4]), n.body[36], n.body[37], n.body[20..36]))
    else None
  }

  predicate IsEnd(n: Node) {
    n.kind == TYPE_END
  }

  predicate IsPartial(path: Path) {
    && path != []
    && !(path[0].kind == TYPE_MEDIA && (path[0].sub == SUBTYPE_FIRMWARE_FILE || path[0].sub == SUBTYPE_FIRMWARE_VOLUME))
    && path[0].kind != TYPE_HARDWARE && path[0].kind != TYPE_ACPI && !IsEnd(path[0])
  }

  // ---- The two sides of an expansion ------------------------------------------------------

  /** The position of the first HardDrive node, or the length. */
  function FirstHardDrive(path: Path): (k: nat)
    ensures k <= |path| && (k < |path| ==> TryHardDrive(path[k]).Some?)
    ensures forall i | 0 <= i < k :: TryHardDrive(path[i]).None?
  {
    HardDriveFrom(path, 0)
  }

  function HardDriveFrom(path: Path, from: nat): (k: nat)
    requires from <= |path|
    ensures from <= k <= |path| && (k < |path| ==> TryHardDrive(path[k]).Some?)
    ensures forall i | from <= i < k :: TryHardDrive(path[i]).None?
    decreases |path| - from
  {
    if from == |path| || TryHardDrive(path[from]).Some? then from else HardDriveFrom(path, from + 1)
  }

  function WithoutEnds(path: Path): Path {
    if path == [] then []
    else (if IsEnd(path[0]) then [] else [path[0]]) + WithoutEnds(path[1..])
  }

  /** What a partial path asks for past its partition. */
  function Remaining(path: Path): Path {
    var k := FirstHardDrive(path);
    if k == |path| then [] else WithoutEnds(path[k + 1..])
  }

  /** A handle's nodes through the first one naming the partition, looking no further than the
      first end node. */
  function PrefixTo(path: Path, target: Partition): (p: Option<Path>)
    ensures p.Some? ==> 0 < |p.value| && p.value <= path && TryHardDrive(p.value[|p.value| - 1]) == Some(target)
  {
    if path == [] || IsEnd(path[0]) then None
    else if TryHardDrive(path[0]) == Some(target) then Some(path[..1])
    else match PrefixTo(path[1..], target)
      case None => None
      case Some(p) => Some([path[0]] + p)
  }

  /** `k` is the first node naming the partition, and no end node precedes it. */
  ghost predicate FirstMatch(path: Path, target: Partition, k: nat) {
    && k < |path| && !IsEnd(path[k]) && TryHardDrive(path[k]) == Some(target)
    && forall i | 0 <= i < k :: !IsEnd(path[i]) && TryHardDrive(path[i]) != Some(target)
  }

  lemma {:induction false} MatchIsFound(path: Path, target: Partition, k: nat)
    requires FirstMatch(path, target, k)
    ensures PrefixTo(path, target) == Some(path[..k + 1])
    decreases |path|
  {
    if k > 0 {
      var rest := path[1..];
      assert FirstMatch(rest, target, k - 1);
      MatchIsFound(rest, target, k - 1);
      assert path[..k + 1] == [path[0]] + rest[..k];
    }
  }

  lemma {:induction false} FoundIsMatch(path: Path, target: Partition) returns (k: nat)
    requires PrefixTo(path, target).Some?
    ensures FirstMatch(path, target, k)
    decreases |path|
  {
    if TryHardDrive(path[0]) == Some(target) {
      k := 0;
    } else {
      var rest := path[1..];
      var j := FoundIsMatch(rest, target);
      k := j + 1;
      forall i | 0 <= i < k
        ensures !IsEnd(path[i]) && TryHardDrive(path[i]) != Some(target)
      {
        if i > 0 { assert path[i] == rest[i - 1]; }
      }
    }
  }

  // A handle's prefix is found exactly when a node naming the partition precedes every end node,
  // and it reaches through the first such node.
  lemma PrefixIsExact(path: Path, target: Partition, p: Path)
    ensures PrefixTo(path, target) == Some(p) <==> exists k :: FirstMatch(path, target, k) && p == path[..k + 1]
  {
    if PrefixTo(path, target) == Some(p) {
      var k := FoundIsMatch(path, target);
      MatchIsFound(path, target, k);
    }
    if exists k :: FirstMatch(path, target, k) && p == path[..k + 1] {
      var k :| FirstMatch(path, target, k) && p == path[..k + 1];
      MatchIsFound(path, target, k);
    }
  }

  /** What each handle that names the partition contributes; `None` is a handle whose path could
      not be read. */
  function Hits(handles: seq<Option<Path>>, target: Partition): seq<Path> {
    if handles == [] then []
    else Hit(handles[0], target) + Hits(handles[1..], target)
  }

  function Hit(handle: Option<Path>, target: Partition): seq<Path> {
    match handle
    case None => []
    case Some(path) => (match PrefixTo(path, target) case None => [] case Some(p) => [p])
  }

  /** The result by the number of handles that name the partition. */
  function Resolve(hits: seq<Path>, rest: Path): Result<Path, Status> {
    if |hits| == 0 then Err(NotFound)
    else if |hits| == 1 then Ok(hits[0] + rest)
    else Err(SecurityViolation)
  }

  function Expand(path: Path, handles: Result<seq<Option<Path>>, Status>): Result<Path, Status> {
    if path == [] || IsEnd(path[0]) then Err(InvalidParameter)
    else if !IsPartial(path) then Ok(path)
    else if FirstHardDrive(path) == |path| then Err(InvalidParameter)
    else match handles
      case Err(e) => Err(e)
      case Ok(hs) => Resolve(Hits(hs, TryHardDrive(path[FirstHardDrive(path)]).value), Remaining(path))
  }

  // ---- The search -------------------------------------------------------------------------

  /** The inner loop: collect nodes until the partition is found or the path ends. */
  method FindPrefix(path: Path, target: Partition) returns (prefix: Option<Path>)
    ensures prefix == PrefixTo(path, target)
  {
    var nodes: Path := [];
    assert path[0..] == path;
    GlueNothing(PrefixTo(path, target));
    assert PrefixTo([], target) == None;
    for i := 0 to |path|
      invariant nodes == path[..i]
      invariant PrefixTo(path, target) == Glue(nodes, PrefixTo(path[i..], target))
    {
      hide PrefixTo;
      hide TryHardDrive;
      PrefixStep(path, i, target);
      GlueNext(nodes, path[i], PrefixTo(path[i + 1..], target));
      if IsEnd(path[i]) {
        return None;
      }
      nodes := nodes + [path[i]];
      if TryHardDrive(path[i]) == Some(target) {
        return Some(nodes);
      }
    }
    assert path[|path|..] == [];
    return None;
  }

  // One node of the walk: an end stops it, a match completes the prefix, any other node joins it.
  lemma PrefixStep(path: Path, i: nat, target: Partition)
    requires i < |path|
    ensures PrefixTo(path[i..], target) ==
              if IsEnd(path[i]) then None
              else if TryHardDrive(path[i]) == Some(target) then Some([path[i]])
              else Glue([path[i]], PrefixTo(path[i + 1..], target))
    ensures path[..i + 1] == path[..i] + [path[i]]
  {
    var rest := path[i..];
    assert rest[0] == path[i] && rest[1..] == path[i + 1..] && rest[..1] == [path[i]];
  }

  function Glue(nodes: Path, p: Option<Path>): Option<Path> {
    match p case None => None case Some(q) => Some(nodes + q)
  }

  lemma GlueNothing(p: Option<Path>)
    ensures Glue([], p) == p
  {
    if p.Some? {
      assert [] + p.value == p.value;
    }
  }

  lemma GlueNext(nodes: Path, n: Node, p: Option<Path>)
    ensures Glue(nodes, Glue([n], p)) == Glue(nodes + [n], p)
  {
    if p.Some? {
      assert nodes + ([n] + p.value) == nodes + [n] + p.value;
    }
  }

  /** `expand_device_path`: one pass over the handles, giving up at the second match. */
  method ExpandDevicePath(path: Path, handles: Result<seq<Option<Path>>, Status>) returns (r: Result<Path, Status>)
    ensures r == Expand(path, handles)
  {
    if path == [] || IsEnd(path[0]) {
      return Err(InvalidParameter);
    }
    if !IsPartial(path) {
      return Ok(path);
    }
    var k := FirstHardDrive(path);
    if k == |path| {
      return Err(InvalidParameter);
    }
    var target, rest := TryHardDrive(path[k]).value, Remaining(path);
    if handles.Err? {
      return Err(handles.error);
    }
    var matched, ambiguous := FindUnique(handles.value, target);
    if ambiguous {
      return Err(SecurityViolation);
    }
    if matched.None? {
      return Err(NotFound);
    }
    return Ok(matched.value + rest);
  }

  /** The handle loop: the only match, none, or the discovery of a second one. */
  method FindUnique(hs: seq<Option<Path>>, target: Partition) returns (matched: Option<Path>, ambiguous: bool)
    ensures ambiguous <==> |Hits(hs, target)| >= 2
    ensures !ambiguous ==> Hits(hs, target) == if matched.None? then [] else [matched.value]
  {
    matched := None;
    for i := 0 to |hs|
      invariant Hits(hs[..i], target) == (if matched.None? then [] else [matched.value])
    {
      HitsStep(hs, i, target);
      if hs[i].None? {
        continue;
      }
      var prefix := FindPrefix(hs[i].value, target);
      if prefix.Some? {
        if matched.Some? {
          return matched, true;
        }
        matched := prefix;
      }
    }
    assert hs[..|hs|] == hs;
    return matched, false;
  }

  lemma HitsStep(hs: seq<Option<Path>>, i: nat, target: Partition)
    requires i < |hs|
    ensures Hits(hs[..i + 1], target) == Hits(hs[..i], target) + Hit(hs[i], target)
    ensures |Hits(hs[..i + 1], target)| <= |Hits(hs, target)|
  {
    assert hs[..i + 1] == hs[..i] + [hs[i]];
    HitsAppend(hs[..i], [hs[i]], target);
    OneHit(hs[i], target);
    assert hs == hs[..i + 1] + hs[i + 1..];
    HitsAppend(hs[..i + 1], hs[i + 1..], target);
  }

  lemma OneHit(h: Option<Path>, target: Partition)
    ensures Hits([h], target) == Hit(h, target)
  {
    assert [h][1..] == [];
    assert Hit(h, target) + [] == Hit(h, target);
  }

  lemma {:induction false} HitsAppend(a: seq<Option<Path>>, b: seq<Option<Path>>, target: Partition)
    ensures Hits(a + b, target) == Hits(a, target) + Hits(b, target)
  {
    if a == [] {
      assert a + b == b;
    } else {
      assert (a + b)[1..] == a[1..] + b;
      HitsAppend(a[1..], b, target);
      assert Hit(a[0], target) + (Hits(a[1..], target) + Hits(b, target))
          == (Hit(a[0], target) + Hits(a[1..], target)) + Hits(b, target);
    }
  }

  // ---- Order of the handles ---------------------------------------------------------------

  lemma {:induction false} HitsPermute(a: seq<Option<Path>>, b: seq<Option<Path>>, target: Partition)
    requires multiset(a) == multiset(b)
    ensures multiset(Hits(a, target)) == multiset(Hits(b, target))
    decreases |a|
  {
    if a == [] {
      assert |b| == |multiset(b)| == |multiset(a)| == 0;
    } else {
      assert a[0] in multiset(b);
      var i :| 0 <= i < |b| && b[i] == a[0];
      assert a == [a[0]] + a[1..];
      assert b == b[..i] + ([b[i]] + b[i + 1..]);
      var others := b[..i] + b[i + 1..];
      assert multiset(b) == multiset(b[..i]) + multiset([b[i]] + b[i + 1..]);
      assert multiset(a[1..]) == multiset(a) - multiset{a[0]};
      assert multiset(others) == multiset(b) - multiset{a[0]};
      HitsPermute(a[1..], others, target);
      HitsAppend(b[..i], [b[i]] + b[i + 1..], target);
      HitsAppend([b[i]], b[i + 1..], target);
      HitsAppend(b[..i], b[i + 1..], target);
      OneHit(b[i], target);
      Shuffle(Hits(b[..i], target), Hit(b[i], target), Hits(b[i + 1..], target), Hits(a[1..], target));
    }
  }

  lemma Shuffle(x: seq<Path>, y: seq<Path>, z: seq<Path>, w: seq<Path>)
    requires multiset(w) == multiset(x + z)
    ensures multiset(y + w) == multiset(x + (y + z))
  {
  }

  // Firmware may enumerate its handles in any order: the expansion is the same.
  lemma ExpansionIgnoresOrder(path: Path, a: seq<Option<Path>>, b: seq<Option<Path>>)
    requires multiset(a) == multiset(b)
    ensures Expand(path, Ok(a)) == Expand(path, Ok(b))
  {
    if path != [] && !IsEnd(path[0]) && IsPartial(path) && FirstHardDrive(path) < |path| {
      var target := TryHardDrive(path[FirstHardDrive(path)]).value;
      HitsPermute(a, b, target);
      ResolvePermute(Hits(a, target), Hits(b, target), Remaining(path));
    }
  }

  lemma ResolvePermute(x: seq<Path>, y: seq<Path>, rest: Path)
    requires multiset(x) == multiset(y)
    ensures Resolve(x, rest) == Resolve(y, rest)
  {
    assert |x| == |multiset(x)| == |multiset(y)| == |y|;
    if |x| == 1 {
      assert x[0] in multiset(y);
    }
  }

  /** The handle names the partition before its first end node. */
  ghost predicate Names(handle: Option<Path>, target: Partition) {
    handle.Some? && PrefixTo(handle.value, target).Some?
  }

  // A partial path with a HardDrive node expands exactly when one handle names the full partition
  // identity, to that handle's nodes through the match and the path's own nodes past its first
  // HardDrive node; two or more handles are a security violation and none is not found.
  lemma ExpansionIsExact(path: Path, handles: seq<Option<Path>>)
    requires IsPartial(path) && FirstHardDrive(path) < |path|
    ensures var target := TryHardDrive(path[FirstHardDrive(path)]).value;
            var r := Expand(path, Ok(handles));
            && (r == Err(NotFound) <==> forall i | 0 <= i < |handles| :: !Names(handles[i], target))
            && (r == Err(SecurityViolation) <==>
                  exists i | 0 <= i < |handles| :: Names(handles[i], target) && OthersName(handles, i, target))
            && forall i | 0 <= i < |handles| && Names(handles[i], target) && !OthersName(handles, i, target) ::
                 r == Ok(PrefixTo(handles[i].value, target).value + Remaining(path))
  {
    var target := TryHardDrive(path[FirstHardDrive(path)]).value;
    ExpandResolves(path, handles);
    NoHits(handles, target);
    forall i | 0 <= i < |handles| && Names(handles[i], target)
      ensures |Hits(handles, target)| >= 1
      ensures OthersName(handles, i, target) <==> |Hits(handles, target)| >= 2
      ensures !OthersName(handles, i, target) ==> Hits(handles, target) == [PrefixTo(handles[i].value, target).value]
    {
      HitsAround(handles, i, target);
    }
  }

  lemma ExpandResolves(path: Path, handles: seq<Option<Path>>)
    requires IsPartial(path) && FirstHardDrive(path) < |path|
    ensures Expand(path, Ok(handles)) ==
              Resolve(Hits(handles, TryHardDrive(path[FirstHardDrive(path)]).value), Remaining(path))
  {
  }

  /** Some other handle names the partition too. */
  ghost predicate OthersName(handles: seq<Option<Path>>, i: nat, target: Partition) {
    exists j | 0 <= j < |handles| && j != i :: Names(handles[j], target)
  }

  lemma {:induction false} NoHits(handles: seq<Option<Path>>, target: Partition)
    ensures Hits(handles, target) == [] <==> forall i | 0 <= i < |handles| :: !Names(handles[i], target)
  {
    if handles != [] {
      NoHits(handles[1..], target);
      assert forall i | 0 <= i < |handles[1..]| :: handles[1..][i] == handles[i + 1];
      if Hits(handles, target) == [] {
        forall i | 0 <= i < |handles| ensures !Names(handles[i], target) {
          if i > 0 { assert !Names(handles[1..][i - 1], target); }
        }
      }
    }
  }

  // The hits around one naming handle are those of the handles before and after it.
  lemma HitsAround(handles: seq<Option<Path>>, i: nat, target: Partition)
    requires i < |handles| && Names(handles[i], target)
    ensures |Hits(handles, target)| >= 1
    ensures OthersName(handles, i, target) <==> |Hits(handles, target)| >= 2
    ensures !OthersName(handles, i, target) ==> Hits(handles, target) == [PrefixTo(handles[i].value, target).value]
  {
    var before, after := handles[..i], handles[i + 1..];
    HitsSplit(handles, i, target);
    NoHits(before, target);
    NoHits(after, target);
    if OthersName(handles, i, target) {
      var j :| 0 <= j < |handles| && j != i && Names(handles[j], target);
      if j < i { assert Names(before[j], target); } else { assert Names(after[j - i - 1], target); }
    } else {
      forall j | 0 <= j < |before| ensures !Names(before[j], target) { assert !Names(handles[j], target); }
      forall j | 0 <= j < |after| ensures !Names(after[j], target) { assert !Names(handles[i + 1 + j], target); }
    }
  }

  lemma HitsSplit(handles: seq<Option<Path>>, i: nat, target: Partition)
    requires i < |handles| && Names(handles[i], target)
    ensures Hits(handles, target)
         == Hits(handles[..i], target) + [PrefixTo(handles[i].value, target).value] + Hits(handles[i + 1..], target)
  {
    assert handles == handles[..i] + ([handles[i]] + handles[i + 1..]);
    HitsAppend(handles[..i], [handles[i]] + handles[i + 1..], target);
    HitsAppend([handles[i]], handles[i + 1..], target);
    OneHit(handles[i], target);
  }

  // ---- The expansion on nodes and bytes ---------------------------------------------------

  /** A HardDrive node: type 4, subtype 1 and the 38 bytes of section 10.3.5.1 of the UEFI
      Specification. */
  ghost predicate PartitionNode(n: Node) {
    n.kind == 4 && n.sub == 1 && |n.body| == 38
  }

  /** Two HardDrive nodes for one partition: number, signature, format and signature type agree,
      start and size may differ. */
  ghost predicate SamePartition(a: Node, b: Node) {
    PartitionNode(a) && PartitionNode(b) && a.body[..4] == b.body[..4] && a.body[20..] == b.body[20..]
  }

  // The identity of a node is made of exactly these bytes.
  lemma HardDriveIdentity(a: Node, b: Node)
    ensures TryHardDrive(a).Some? <==> PartitionNode(a)
    ensures PartitionNode(a) ==> (TryHardDrive(b) == TryHardDrive(a) <==> SamePartition(a, b))
  {
    if PartitionNode(a) && PartitionNode(b) {
      Le32Inverse(a.body[..4]);
      Le32Inverse(b.body[..4]);
      TailOf(a.body);
      TailOf(b.body);
    }
  }

  lemma TailOf(body: seq<byte>)
    requires |body| == 38
    ensures body[20..] == body[20..36] + [body[36], body[37]]
    ensures body[20..][..16] == body[20..36] && body[20..][16] == body[36] && body[20..][17] == body[37]
  {
  }

  /** The first node that may not begin a short form: hardware and ACPI paths are rooted, firmware
      volumes and files resolve by themselves, and an end node begins no path. */
  ghost predicate Rooted(n: Node) {
    n.kind == 1 || n.kind == 2 || (n.kind == 4 && (n.sub == 6 || n.sub == 7))
  }

  /** The handle's node `j` is its first for the partition, with no end node before it. */
  ghost predicate NamedAt(handle: Option<Path>, j: nat, target: Node) {
    && handle.Some? && j < |handle.value| && SamePartition(handle.value[j], target)
    && forall i | 0 <= i < j :: handle.value[i].kind != 0x7F && !SamePartition(handle.value[i], target)
  }

  ghost predicate NamedSomewhere(handle: Option<Path>, target: Node) {
    exists j: nat :: NamedAt(handle, j, target)
  }

  // Paths that need no expansion, or cannot have one.
  lemma FullPathsStay(path: Path, handles: Result<seq<Option<Path>>, Status>)
    ensures path == [] || path[0].kind == 0x7F ==> Expand(path, handles) == Err(InvalidParameter)
    ensures path != [] && Rooted(path[0]) ==> Expand(path, handles) == Ok(path) && !IsPartial(path)
    ensures path != [] && path[0].kind != 0x7F && !Rooted(path[0]) ==> IsPartial(path)
    ensures path != [] && !Rooted(path[0]) && (forall i | 0 <= i < |path| :: !PartitionNode(path[i])) ==>
              Expand(path, handles) == Err(InvalidParameter)
  {
    if path != [] && !Rooted(path[0]) && forall i | 0 <= i < |path| :: !PartitionNode(path[i]) {
      var k := FirstHardDrive(path);
      if k < |path| { HardDriveIdentity(path[k], path[k]); }
    }
  }

  lemma FirstPartition(path: Path, k: nat)
    requires k < |path| && PartitionNode(path[k]) && forall i | 0 <= i < k :: !PartitionNode(path[i])
    ensures FirstHardDrive(path) == k
  {
    hide TryHardDrive;
    var j := FirstHardDrive(path);
    HardDriveIdentity(path[k], path[k]);
    if j < k { HardDriveIdentity(path[j], path[j]); }
  }

  lemma NamedIsMatch(handle: Path, j: nat, target: Node)
    requires PartitionNode(target)
    ensures NamedAt(Some(handle), j, target) <==> FirstMatch(handle, TryHardDrive(target).value, j)
  {
    hide TryHardDrive;
    HardDriveIdentity(target, target);
    forall i | 0 <= i < |handle|
      ensures TryHardDrive(handle[i]) == TryHardDrive(target) <==> SamePartition(handle[i], target)
    {
      HardDriveIdentity(target, handle[i]);
    }
  }

  lemma NamedIsNames(handle: Option<Path>, target: Node)
    requires PartitionNode(target) && TryHardDrive(target).Some?
    ensures NamedSomewhere(handle, target) <==> Names(handle, TryHardDrive(target).value)
  {
    hide TryHardDrive;
    var p := TryHardDrive(target).value;
    if handle.Some? {
      if NamedSomewhere(handle, target) {
        var j: nat :| NamedAt(handle, j, target);
        NamedIsMatch(handle.value, j, target);
        MatchIsFound(handle.value, p, j);
      }
      if Names(handle, p) {
        var j := FoundIsMatch(handle.value, p);
        NamedIsMatch(handle.value, j, target);
      }
    }
  }

  lemma ExpandOnce(path: Path, handles: Result<seq<Option<Path>>, Status>)
    requires IsPartial(path) && FirstHardDrive(path) < |path|
    ensures handles.Err? ==> Expand(path, handles) == Err(handles.error)
    ensures Remaining(path) == WithoutEnds(path[FirstHardDrive(path) + 1..])
  {
  }

  lemma Another(hs: seq<Option<Path>>, i: nat, j: nat, target: Partition)
    requires i < j < |hs| && Names(hs[j], target)
    ensures OthersName(hs, i, target)
  {
  }

  lemma NamedOnce(hs: seq<Option<Path>>, i: nat, j: nat, target: Node)
    requires i < |hs| && NamedAt(hs[i], j, target) && PartitionNode(target) && TryHardDrive(target).Some?
    requires forall o | 0 <= o < |hs| && o != i :: !NamedSomewhere(hs[o], target)
    ensures var p := TryHardDrive(target).value;
            Names(hs[i], p) && !OthersName(hs, i, p) && PrefixTo(hs[i].value, p) == Some(hs[i].value[..j + 1])
  {
    hide TryHardDrive;
    NamedIsMatch(hs[i].value, j, target);
    MatchIsFound(hs[i].value, TryHardDrive(target).value, j);
    forall o | 0 <= o < |hs| && o != i ensures !Names(hs[o], TryHardDrive(target).value) {
      NamedIsNames(hs[o], target);
    }
  }

  // What follows the partition is kept in order without its end nodes: of a list without any, all.
  lemma {:induction false} WithoutEndsFilters(a: Path, n: Node, b: Path)
    ensures WithoutEnds(a + [n] + b) == WithoutEnds(a) + (if n.kind == 0x7F then [] else [n]) + WithoutEnds(b)
    ensures (forall i | 0 <= i < |a| :: a[i].kind != 0x7F) ==> WithoutEnds(a) == a
  {
    if a == [] {
      assert (a + [n] + b)[1..] == b;
    } else {
      assert (a + [n] + b)[1..] == a[1..] + [n] + b;
      WithoutEndsFilters(a[1..], n, b);
      var first: Path := if a[0].kind == 0x7F then [] else [a[0]];
      assert first + (WithoutEnds(a[1..]) + (if n.kind == 0x7F then [] else [n]) + WithoutEnds(b))
          == first + WithoutEnds(a[1..]) + (if n.kind == 0x7F then [] else [n]) + WithoutEnds(b);
    }
  }

  // The expansion law: a path that begins with any other node, an ordinary HardDrive node
  // included, is resolved by its first HardDrive node. A failed enumeration is the answer; a
  // partition that no handle names is not found, one that two handles name is refused, and the one
  // handle that names it contributes its nodes through the first naming one, in front of the nodes
  // that follow in the path.
  lemma ExpansionLaw(path: Path, k: nat, handles: Result<seq<Option<Path>>, Status>)
    requires path != [] && path[0].kind != 0x7F && !Rooted(path[0])
    requires k < |path| && PartitionNode(path[k]) && forall i | 0 <= i < k :: !PartitionNode(path[i])
    ensures var r := Expand(path, handles);
            match handles
            case Err(e) => r == Err(e)
            case Ok(hs) =>
              && ((forall i | 0 <= i < |hs| :: !NamedSomewhere(hs[i], path[k])) ==> r == Err(NotFound))
              && ((exists i, j | 0 <= i < j < |hs| :: NamedSomewhere(hs[i], path[k]) && NamedSomewhere(hs[j], path[k])) ==>
                    r == Err(SecurityViolation))
              && (forall i, j | 0 <= i < |hs| && 0 <= j && NamedAt(hs[i], j, path[k])
                      && (forall o | 0 <= o < |hs| && o != i :: !NamedSomewhere(hs[o], path[k])) ::
                    r == Ok(hs[i].value[..j + 1] + WithoutEnds(path[k + 1..])))
  {
    hide Expand;
    hide FirstHardDrive;
    hide TryHardDrive;
    hide IsPartial;
    hide Remaining;
    hide WithoutEnds;
    hide PrefixTo;
    hide Names;
    hide OthersName;
    hide NamedSomewhere;
    var target := path[k];
    FullPathsStay(path, handles);
    FirstPartition(path, k);
    HardDriveIdentity(target, target);
    ExpandOnce(path, handles);
    if handles.Ok? {
      var hs := handles.value;
      forall i | 0 <= i < |hs| ensures NamedSomewhere(hs[i], target) <==> Names(hs[i], TryHardDrive(target).value) {
        NamedIsNames(hs[i], target);
      }
      ExpansionIsExact(path, hs);
      forall i, j | 0 <= i < |hs| && 0 <= j && NamedAt(hs[i], j, target)
                    && forall o | 0 <= o < |hs| && o != i :: !NamedSomewhere(hs[o], target)
        ensures Expand(path, handles) == Ok(hs[i].value[..j + 1] + WithoutEnds(path[k + 1..]))
      {
        NamedOnce(hs, i, j, target);
      }
      if i, j :| 0 <= i < j < |hs| && NamedSomewhere(hs[i], target) && NamedSomewhere(hs[j], target) {
        Another(hs, i, j, TryHardDrive(target).value);
      }
    }
  }
}
