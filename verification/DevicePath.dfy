/** Device paths as bytes: a list of nodes, each a type, a subtype, a 16-bit length that counts its
    4-byte header, and a body, ended by an END_ENTIRE node. Two walkers over such bytes and the
    extension of a path by a file path node. */
module DevicePath {
  import opened Bytes

  const HEADER_BYTES := 4
  /** Sanity cap of the size walk. */
  const MAX_BYTES := 64 * 1024
  const TYPE_MEDIA := 0x04
  const SUBTYPE_FILE_PATH := 0x04
  const TYPE_END := 0x7F
  const SUBTYPE_END_ENTIRE := 0xFF
  const END_ENTIRE: seq<byte> := [0x7F, 0xFF, 0x04, 0x00]

  datatype Node = Node(kind: byte, sub: byte, body: seq<byte>)

  predicate IsEndEntire(kind: byte, sub: byte) {
    kind == TYPE_END && sub == SUBTYPE_END_ENTIRE
  }

  // ---- Node lists -------------------------------------------------------------------------

  /** A node that a 16-bit length can describe and that does not end the path. */
  predicate Inner(n: Node) {
    HEADER_BYTES + |n.body| < 0x1_0000 && !IsEndEntire(n.kind, n.sub)
  }

  predicate AllInner(ns: seq<Node>) {
    forall i | 0 <= i < |ns| :: Inner(ns[i])
  }

  function EncodeHeader(kind: byte, sub: byte, length: u16): (b: seq<byte>)
    ensures |b| == HEADER_BYTES
  {
    [kind, sub] + Le16(length)
  }

  function EncodeNode(n: Node): seq<byte> {
    EncodeHeader(n.kind, n.sub, ToU16(HEADER_BYTES + |n.body|)) + n.body
  }

  function EncodeNodes(ns: seq<Node>): seq<byte> {
    if ns == [] then [] else EncodeNode(ns[0]) + EncodeNodes(ns[1..])
  }

  /** The first `n` bytes are the nodes `ns` and an END_ENTIRE node. */
  predicate IsPath(b: seq<byte>, n: nat, ns: seq<Node>) {
    n <= |b| && AllInner(ns) && b[..n] == EncodeNodes(ns) + END_ENTIRE
  }

  // ---- device_path_size -------------------------------------------------------------------

  function LengthAt(b: seq<byte>, pos: nat): u16
    requires pos + 4 <= |b|
  {
    FromLe16(b[pos + 2..pos + 4])
  }

  /** The walk from `consumed` on; 0 for a malformed or overlong path. `w` is the memory from the
      path pointer on, of which the walk never reads past the cap. */
  function SizeFrom(w: seq<byte>, consumed: nat): (n: nat)
    requires |w| >= MAX_BYTES
    ensures n <= MAX_BYTES
    decreases MAX_BYTES - consumed
  {
    if consumed > MAX_BYTES - HEADER_BYTES then 0
    else
      var length: nat := LengthAt(w, consumed);
      var isEnd := IsEndEntire(w[consumed], w[consumed + 1]);
      if length < HEADER_BYTES then 0
      else if isEnd && length != HEADER_BYTES then 0
      else if consumed + length > MAX_BYTES then 0
      else if isEnd then consumed + length
      else SizeFrom(w, consumed + length)
  }

  method DevicePathSize(w: seq<byte>) returns (n: nat)
    requires |w| >= MAX_BYTES
    ensures n == SizeFrom(w, 0)
  {
    var consumed := 0;
    while true
      invariant SizeFrom(w, 0) == SizeFrom(w, consumed)
      decreases MAX_BYTES - consumed
    {
      if consumed > MAX_BYTES - HEADER_BYTES {
        return 0;
      }
      var length: nat := LengthAt(w, consumed);
      if length < HEADER_BYTES {
        return 0;
      }
      var isEnd := w[consumed] == TYPE_END && w[consumed + 1] == SUBTYPE_END_ENTIRE;
      if isEnd && length != HEADER_BYTES {
        return 0;
      }
      if consumed + length > MAX_BYTES {
        return 0;
      }
      consumed := consumed + length;
      if isEnd {
        return consumed;
      }
    }
  }

  // ---- validate_device_path_nodes ---------------------------------------------------------

  /** Where the first END_ENTIRE node of a buffer starts and how long it claims to be, if every
      node up to and including it lies inside the buffer. */
  function EndFrom(b: seq<byte>, pos: nat): (e: Option<(nat, nat)>)
    requires pos <= |b|
    ensures e.Some? ==> pos <= e.value.0 && HEADER_BYTES <= e.value.1 && e.value.0 + e.value.1 <= |b|
    decreases |b| - pos
  {
    if pos + HEADER_BYTES > |b| then None
    else
      var length: nat := LengthAt(b, pos);
      if length < HEADER_BYTES || pos + length > |b| then None
      else if IsEndEntire(b[pos], b[pos + 1]) then Some((pos, length))
      else EndFrom(b, pos + length)
  }

  method ValidateDevicePathNodes(buffer: seq<byte>) returns (ok: bool)
    ensures ok <==> EndFrom(buffer, 0).Some?
  {
    var pos := 0;
    while true
      invariant pos <= |buffer| && EndFrom(buffer, 0) == EndFrom(buffer, pos)
      decreases |buffer| - pos
    {
      if pos + HEADER_BYTES > |buffer| {
        return false;
      }
      var length: nat := LengthAt(buffer, pos);
      if length < HEADER_BYTES {
        return false;
      }
      if pos + length > |buffer| {
        return false;
      }
      if buffer[pos] == TYPE_END && buffer[pos + 1] == SUBTYPE_END_ENTIRE {
        return true;
      }
      pos := pos + length;
    }
  }

  // The two walkers on the same bytes: the size walk succeeds inside the buffer exactly when the
  // validator accepts, the END_ENTIRE node is exactly a header, and the path ends within the cap.
  lemma {:induction false} WalkersAgree(b: seq<byte>, w: seq<byte>, pos: nat)
    requires |w| >= MAX_BYTES && |w| >= |b| && w[..|b|] == b && pos <= |b|
    ensures (0 < SizeFrom(w, pos) <= |b|) <==>
              && EndFrom(b, pos).Some?
              && EndFrom(b, pos).value.1 == HEADER_BYTES && EndFrom(b, pos).value.0 + HEADER_BYTES <= MAX_BYTES
    ensures 0 < SizeFrom(w, pos) <= |b| ==> SizeFrom(w, pos) == EndFrom(b, pos).value.0 + HEADER_BYTES
    decreases |b| - pos
  {
    hide LengthAt;
    SizeGrows(w, pos);
    if pos + HEADER_BYTES <= |b| {
      SameHeader(b, w, pos);
      var length: nat := LengthAt(b, pos);
      if length >= HEADER_BYTES && pos + length <= |b| && !IsEndEntire(b[pos], b[pos + 1]) {
        WalkersAgree(b, w, pos + length);
      } else if length >= HEADER_BYTES && pos + length > |b| {
        SizeGrows(w, pos + length);
      }
    }
  }

  lemma {:induction false} SizeGrows(w: seq<byte>, pos: nat)
    requires |w| >= MAX_BYTES
    ensures SizeFrom(w, pos) > 0 ==> SizeFrom(w, pos) >= pos + HEADER_BYTES
    decreases MAX_BYTES - pos
  {
    if pos <= MAX_BYTES - HEADER_BYTES {
      var length: nat := LengthAt(w, pos);
      if length >= HEADER_BYTES && pos + length <= MAX_BYTES && !IsEndEntire(w[pos], w[pos + 1]) {
        SizeGrows(w, pos + length);
      }
    }
  }

  lemma SameHeader(b: seq<byte>, w: seq<byte>, pos: nat)
    requires |b| <= |w| && w[..|b|] == b && pos + HEADER_BYTES <= |b|
    ensures w[pos] == b[pos] && w[pos + 1] == b[pos + 1] && LengthAt(w, pos) == LengthAt(b, pos)
  {
    assert w[..|b|][pos] == b[pos] && w[..|b|][pos + 1] == b[pos + 1];
    assert w[pos + 2..pos + 4] == b[pos + 2..pos + 4];
  }

  // They do differ: an END_ENTIRE node that claims a fifth byte is a valid path to one walker and
  // malformed to the other.
  lemma LongEndDiffers(w: seq<byte>)
    requires |w| >= MAX_BYTES && w[..5] == [0x7F, 0xFF, 0x05, 0x00, 0x00]
    ensures EndFrom(w[..5], 0).Some? && SizeFrom(w, 0) == 0
  {
    var b := w[..5];
    assert b[2..4] == [0x05, 0x00];
    SameHeader(b, w, 0);
  }

  // ---- Exactness of the size walk ---------------------------------------------------------

  // The validator's walk ends at the END_ENTIRE that closes a node list.
  lemma {:induction false} EndOfNodes(b: seq<byte>, pos: nat, ns: seq<Node>)
    requires pos <= |b| && AllInner(ns) && b[pos..] == EncodeNodes(ns) + END_ENTIRE
    ensures EndFrom(b, pos) == Some((|b| - HEADER_BYTES, HEADER_BYTES))
    decreases |ns|
  {
    hide EndFrom;
    if ns == [] {
      assert EncodeNodes(ns) + END_ENTIRE == END_ENTIRE;
      EndAhead(b, pos);
    } else {
      var n, more := ns[0], EncodeNodes(ns[1..]) + END_ENTIRE;
      var size := HEADER_BYTES + |n.body|;
      assert EncodeNodes(ns) + END_ENTIRE == EncodeNode(n) + more;
      NodeAhead(b, pos, n, more);
      EndOfNodes(b, pos + size, ns[1..]);
    }
  }

  lemma EndAhead(b: seq<byte>, pos: nat)
    requires pos <= |b| && b[pos..] == END_ENTIRE
    ensures EndFrom(b, pos) == Some((|b| - HEADER_BYTES, HEADER_BYTES))
  {
    var rest := b[pos..];
    assert rest[0] == b[pos] && rest[1] == b[pos + 1];
    assert b[pos + 2..pos + 4] == [0x04, 0x00];
  }

  lemma NodeAhead(b: seq<byte>, pos: nat, n: Node, more: seq<byte>)
    requires pos <= |b| && Inner(n) && b[pos..] == EncodeNode(n) + more
    ensures var size := HEADER_BYTES + |n.body|;
            && pos + size <= |b| && b[pos + size..] == more && EndFrom(b, pos) == EndFrom(b, pos + size)
  {
    hide EndFrom;
    var size := HEADER_BYTES + |n.body|;
    var header := EncodeHeader(n.kind, n.sub, size);
    assert b[pos..pos + HEADER_BYTES + |n.body + more|] == b[pos..];
    assert b[pos..] == header + (n.body + more);
    HeaderAt(b, pos, header, n.body + more);
    Le16RoundTrip(size);
    assert b[pos..][size..] == more;
    PastNode(b, pos, size);
  }

  lemma PastNode(b: seq<byte>, pos: nat, size: nat)
    requires HEADER_BYTES <= size && pos + size <= |b| && LengthAt(b, pos) as int == size
    requires !IsEndEntire(b[pos], b[pos + 1])
    ensures EndFrom(b, pos) == EndFrom(b, pos + size)
  {
  }

  lemma HeaderAt(w: seq<byte>, pos: nat, header: seq<byte>, more: seq<byte>)
    requires |header| == HEADER_BYTES && pos + HEADER_BYTES + |more| <= |w|
    requires w[pos..pos + HEADER_BYTES + |more|] == header + more
    ensures w[pos] == header[0] && w[pos + 1] == header[1] && w[pos + 2..pos + 4] == header[2..]
  {
    var v := w[pos..pos + HEADER_BYTES + |more|];
    assert v[0] == header[0] && v[1] == header[1] && v[2] == header[2] && v[3] == header[3];
  }

  // A nonzero result means the bytes walked are a node list with its END_ENTIRE.
  lemma {:induction false} SizeSound(w: seq<byte>, pos: nat) returns (ns: seq<Node>)
    requires |w| >= MAX_BYTES && SizeFrom(w, pos) > 0
    ensures AllInner(ns) && pos <= SizeFrom(w, pos)
    ensures w[pos..SizeFrom(w, pos)] == EncodeNodes(ns) + END_ENTIRE
    decreases MAX_BYTES - pos
  {
    hide SizeFrom;
    hide LengthAt;
    hide EncodeNode;
    WalkStarts(w, pos);
    if IsEndEntire(w[pos], w[pos + 1]) {
      WalkEnds(w, pos);
      ns := [];
    } else {
      WalkGoesOn(w, pos);
      var length: nat := LengthAt(w, pos);
      var more := SizeSound(w, pos + length);
      var n := Node(w[pos], w[pos + 1], w[pos + 4..pos + length]);
      ns := [n] + more;
      NodeBytes(w, pos, length);
      assert ns[1..] == more;
      JoinAt(w, pos, pos + length, SizeFrom(w, pos), EncodeNode(n), EncodeNodes(more));
    }
  }

  lemma WalkStarts(w: seq<byte>, pos: nat)
    requires |w| >= MAX_BYTES && SizeFrom(w, pos) > 0
    ensures pos + HEADER_BYTES <= MAX_BYTES
  {
  }

  lemma WalkEnds(w: seq<byte>, pos: nat)
    requires |w| >= MAX_BYTES && SizeFrom(w, pos) > 0 && pos + HEADER_BYTES <= MAX_BYTES && IsEndEntire(w[pos], w[pos + 1])
    ensures SizeFrom(w, pos) == pos + HEADER_BYTES && w[pos..pos + HEADER_BYTES] == EncodeNodes([]) + END_ENTIRE
  {
    HeaderBytes(w, pos);
  }

  lemma WalkGoesOn(w: seq<byte>, pos: nat)
    requires |w| >= MAX_BYTES && SizeFrom(w, pos) > 0 && pos + HEADER_BYTES <= MAX_BYTES && !IsEndEntire(w[pos], w[pos + 1])
    ensures var length: nat := LengthAt(w, pos);
            && HEADER_BYTES <= length && pos + length <= MAX_BYTES && SizeFrom(w, pos) == SizeFrom(w, pos + length)
  {
  }

  lemma HeaderBytes(w: seq<byte>, pos: nat)
    requires pos + HEADER_BYTES <= |w|
    ensures w[pos..pos + HEADER_BYTES] == EncodeHeader(w[pos], w[pos + 1], LengthAt(w, pos))
  {
    Le16Inverse(w[pos + 2..pos + 4]);
    assert w[pos..pos + 4] == [w[pos], w[pos + 1]] + w[pos + 2..pos + 4];
  }

  lemma NodeBytes(w: seq<byte>, pos: nat, length: nat)
    requires HEADER_BYTES <= length && pos + length <= |w| && length == LengthAt(w, pos) as int
    ensures w[pos..pos + length] == EncodeNode(Node(w[pos], w[pos + 1], w[pos + 4..pos + length]))
  {
    HeaderBytes(w, pos);
    assert w[pos..pos + length] == w[pos..pos + 4] + w[pos + 4..pos + length];
  }

  lemma JoinAt(w: seq<byte>, from: nat, mid: nat, to: nat, a: seq<byte>, b: seq<byte>)
    requires from <= mid <= to <= |w| && w[from..mid] == a && w[mid..to] == b + END_ENTIRE
    ensures w[from..to] == (a + b) + END_ENTIRE
  {
    assert w[from..to] == w[from..mid] + w[mid..to];
  }

  // The size walk returns n > 0 exactly for the bytes of a path of n bytes within the cap.
  lemma SizeIsExact(w: seq<byte>, n: nat)
    requires |w| >= MAX_BYTES && n > 0
    ensures SizeFrom(w, 0) == n <==> n <= 65536 && exists ns :: IsPath(w, n, ns)
  {
    if SizeFrom(w, 0) == n {
      var ns := SizeSound(w, 0);
      assert IsPath(w, n, ns);
    }
    if n <= MAX_BYTES && exists ns :: IsPath(w, n, ns) {
      var ns :| IsPath(w, n, ns);
      EndOfNodes(w[..n], 0, ns);
      WalkersAgree(w[..n], w, 0);
    }
  }

  /** Nodes whose encoding the size walk can measure. */
  predicate Measurable(ns: seq<Node>) {
    AllInner(ns) && |EncodeNodes(ns)| + HEADER_BYTES <= MAX_BYTES
  }

  // The size walk over the encoding of a node list finds room for an END_ENTIRE exactly if the list
  // is measurable; otherwise it returns 0.
  lemma MeasuredByWalk(ns: seq<Node>, w: seq<byte>)
    requires AllInner(ns) && |w| >= MAX_BYTES && EncodeNodes(ns) + END_ENTIRE <= w
    ensures SizeFrom(w, 0) == if Measurable(ns) then |EncodeNodes(ns)| + HEADER_BYTES else 0
  {
    var path := EncodeNodes(ns) + END_ENTIRE;
    assert path[0..] == path && w[..|path|] == path;
    EndOfNodes(path, 0, ns);
    WalkersAgree(path, w, 0);
  }

  // ---- Extending a path -------------------------------------------------------------------

  function EncodeUnits(p: seq<u16>): (b: seq<byte>)
    ensures |b| == 2 * |p|
  {
    if p == [] then [] else Le16(p[0]) + EncodeUnits(p[1..])
  }

  function DecodeUnits(b: seq<byte>): seq<u16> {
    if |b| < 2 then [] else [FromLe16(b[..2])] + DecodeUnits(b[2..])
  }

  /** What precedes the first NUL unit. */
  function UpToNul(p: seq<u16>): seq<u16> {
    if p == [] || p[0] == 0 then [] else [p[0]] + UpToNul(p[1..])
  }

  function FilePathNode(p: seq<u16>): Node {
    Node(TYPE_MEDIA, SUBTYPE_FILE_PATH, EncodeUnits(p + [0]))
  }

  /** A path of UTF-16 units `p` fits a node whose length field is 16 bits. */
  predicate FitsNode(p: seq<u16>) {
    HEADER_BYTES + 2 * (|p| + 1) <= 0xFFFF
  }

  /** `build_file_path_node`: the node and an END_ENTIRE, or a bare END_ENTIRE if `p` is too long. */
  method BuildFilePathNode(p: seq<u16>) returns (out: seq<byte>)
    ensures out == (if FitsNode(p) then EncodeNode(FilePathNode(p)) else []) + END_ENTIRE
  {
    var units := p + [0];
    var nodeLen := HEADER_BYTES + |units| * 2;
    if nodeLen > 0xFFFF {
      return END_ENTIRE;
    }
    out := EncodeHeader(TYPE_MEDIA, SUBTYPE_FILE_PATH, nodeLen);
    ghost var header := out;
    assert FitsNode(p) && EncodeUnits(units[..0]) == [];
    assert header + EncodeUnits(units) == EncodeNode(FilePathNode(p));
    hide *;
    for i := 0 to |units|
      invariant out == header + EncodeUnits(units[..i])
    {
      out := out + Le16(units[i]);
      NextUnit(header, units, i);
    }
    assert units[..|units|] == units;
    out := out + END_ENTIRE;
  }

  lemma NextUnit(header: seq<byte>, units: seq<u16>, i: nat)
    requires i < |units|
    ensures header + EncodeUnits(units[..i]) + Le16(units[i]) == header + EncodeUnits(units[..i + 1])
  {
    UnitsAppend(units[..i], units[i]);
    assert units[..i + 1] == units[..i] + [units[i]];
  }

  lemma {:induction false} UnitsAppend(p: seq<u16>, x: u16)
    ensures EncodeUnits(p + [x]) == EncodeUnits(p) + Le16(x)
  {
    if p == [] {
      assert p + [x] == [x] && [x][1..] == [];
    } else {
      assert (p + [x])[1..] == p[1..] + [x];
      UnitsAppend(p[1..], x);
    }
  }

  lemma {:induction false} UnitsRoundTrip(p: seq<u16>)
    ensures DecodeUnits(EncodeUnits(p)) == p
  {
    if p != [] {
      var b := EncodeUnits(p);
      assert b[..2] == Le16(p[0]) && b[2..] == EncodeUnits(p[1..]);
      Le16RoundTrip(p[0]);
      UnitsRoundTrip(p[1..]);
    }
  }

  lemma {:induction false} NulFreeSurvives(p: seq<u16>)
    ensures UpToNul(p + [0]) == p <==> forall i | 0 <= i < |p| :: p[i] != 0
  {
    if p == [] {
      assert p + [0] == [0];
    } else {
      assert (p + [0])[1..] == p[1..] + [0];
      NulFreeSurvives(p[1..]);
      if p[0] != 0 && forall i | 0 <= i < |p[1..]| :: p[1..][i] != 0 {
        forall i | 0 <= i < |p| ensures p[i] != 0 { if i > 0 { assert p[1..][i - 1] != 0; } }
      }
      if forall i | 0 <= i < |p| :: p[i] != 0 {
        forall i | 0 <= i < |p[1..]| ensures p[1..][i] != 0 { assert p[i + 1] != 0; }
      }
      if UpToNul(p + [0]) == p { assert UpToNul(p + [0])[0] == p[0] && UpToNul(p + [0])[1..] == p[1..]; }
    }
  }

  lemma {:induction false} EncodeAppend(ns: seq<Node>, n: Node)
    ensures EncodeNodes(ns + [n]) == EncodeNodes(ns) + EncodeNode(n)
  {
    if ns == [] {
      assert ns + [n] == [n] && [n][1..] == [];
    } else {
      assert (ns + [n])[1..] == ns[1..] + [n];
      EncodeAppend(ns[1..], n);
    }
  }

  /** A path without its END_ENTIRE, then what `BuildFilePathNode` returns for `p`. */
  function Extended(path: seq<byte>, p: seq<u16>): seq<byte>
    requires |path| >= HEADER_BYTES
  {
    path[..|path| - HEADER_BYTES] + ((if FitsNode(p) then EncodeNode(FilePathNode(p)) else []) + END_ENTIRE)
  }

  // The extended path is the original nodes and one file path node, whose body decodes to `p` and
  // a NUL; a `p` that no node can hold leaves the path as it was. The size walk measures the result
  // whenever it stays within the cap.
  lemma ExtensionIsExact(path: seq<byte>, ns: seq<Node>, p: seq<u16>, w: seq<byte>)
    requires IsPath(path, |path|, ns)
    requires |w| >= MAX_BYTES && Extended(path, p) <= w
    ensures FitsNode(p) ==> IsPath(Extended(path, p), |Extended(path, p)|, ns + [FilePathNode(p)])
    ensures FitsNode(p) ==> DecodeUnits(FilePathNode(p).body) == p + [0]
    ensures !FitsNode(p) ==> Extended(path, p) == path
    ensures SizeFrom(w, 0) == |Extended(path, p)| <==> |Extended(path, p)| <= MAX_BYTES
  {
    var ext := Extended(path, p);
    var all := if FitsNode(p) then ns + [FilePathNode(p)] else ns;
    ExtendedNodes(path, ns, p);
    UnitsRoundTrip(p + [0]);
    assert FilePathNode(p).body == EncodeUnits(p + [0]);
    hide *;
    PathInMemory(ext, w, all);
    SizeIsExact(w, |ext|);
  }

  lemma PathInMemory(path: seq<byte>, w: seq<byte>, ns: seq<Node>)
    requires IsPath(path, |path|, ns) && path <= w
    ensures IsPath(w, |path|, ns) && |path| > 0
  {
    assert path[..|path|] == path && w[..|path|] == path;
  }

  lemma ExtendedNodes(path: seq<byte>, ns: seq<Node>, p: seq<u16>)
    requires IsPath(path, |path|, ns)
    ensures |path| >= HEADER_BYTES && (!FitsNode(p) ==> Extended(path, p) == path)
    ensures IsPath(Extended(path, p), |Extended(path, p)|, if FitsNode(p) then ns + [FilePathNode(p)] else ns)
  {
    assert path[..|path|] == path;
    if FitsNode(p) {
      hide EncodeNode;
      var inner, node := EncodeNodes(ns), FilePathNode(p);
      ParentPart(path, inner);
      EncodeAppend(ns, node);
      NodeIsInner(p);
      JoinEnd(inner, EncodeNode(node));
      var ext := Extended(path, p);
      assert ext[..|ext|] == ext;
    } else {
      ParentPart(path, EncodeNodes(ns));
      var ext := Extended(path, p);
      assert ext == path;
    }
  }

  lemma ParentPart(path: seq<byte>, inner: seq<byte>)
    requires path == inner + END_ENTIRE
    ensures |path| >= HEADER_BYTES && path[..|path| - HEADER_BYTES] == inner
  {
  }

  lemma NodeIsInner(p: seq<u16>)
    requires FitsNode(p)
    ensures Inner(FilePathNode(p))
  {
  }

  lemma JoinEnd(a: seq<byte>, b: seq<byte>)
    ensures a + (b + END_ENTIRE) == (a + b) + END_ENTIRE
  {
  }

  // ---- Exactness of the validator ---------------------------------------------------------

  /** An END_ENTIRE header that claims `length` bytes. */
  ghost predicate EndHeader(b: seq<byte>, length: nat) {
    |b| >= 4 && b[0] == 0x7F && b[1] == 0xFF && b[2] as int + 256 * b[3] as int == length
  }

  lemma EndStep(b: seq<byte>, pos: nat, length: nat)
    requires pos + 4 <= |b| && EndHeader(b[pos..], length) && 4 <= length && pos + length <= |b|
    ensures EndFrom(b, pos) == Some((pos, length))
  {
    var rest := b[pos..];
    assert rest[0] == b[pos] && rest[1] == b[pos + 1] && rest[2] == b[pos + 2] && rest[3] == b[pos + 3];
    assert b[pos + 2..pos + 4] == [b[pos + 2], b[pos + 3]];
  }

  lemma {:induction false} EndAfterNodes(b: seq<byte>, pos: nat, ns: seq<Node>, more: seq<byte>, length: nat)
    requires pos <= |b| && AllInner(ns) && b[pos..] == EncodeNodes(ns) + more
    requires EndHeader(more, length) && 4 <= length <= |more|
    ensures EndFrom(b, pos) == Some((|b| - |more|, length))
    decreases |ns|
  {
    hide EndFrom;
    hide EndHeader;
    if ns == [] {
      assert b[pos..] == more;
      EndStep(b, pos, length);
    } else {
      var rest := EncodeNodes(ns[1..]) + more;
      assert EncodeNodes(ns) + more == EncodeNode(ns[0]) + rest;
      NodeAhead(b, pos, ns[0], rest);
      EndAfterNodes(b, pos + HEADER_BYTES + |ns[0].body|, ns[1..], more, length);
    }
  }

  lemma {:induction false} NodesBeforeEnd(b: seq<byte>, pos: nat) returns (ns: seq<Node>)
    requires pos <= |b| && EndFrom(b, pos).Some?
    ensures var (at, length) := EndFrom(b, pos).value;
            AllInner(ns) && b[pos..at] == EncodeNodes(ns) && EndHeader(b[at..], length)
    decreases |b| - pos
  {
    var length: nat := LengthAt(b, pos);
    if IsEndEntire(b[pos], b[pos + 1]) {
      ns := [];
    } else {
      hide IsEndEntire;
      var more := NodesBeforeEnd(b, pos + length);
      var n, at := Node(b[pos], b[pos + 1], b[pos + 4..pos + length]), EndFrom(b, pos).value.0;
      ns := [n] + more;
      NodeBytes(b, pos, length);
      assert ns[1..] == more;
      assert b[pos..at] == b[pos..pos + length] + b[pos + length..at];
    }
  }

  // The validator finds an END_ENTIRE node of `length` bytes at `at` exactly if the bytes before it
  // are nodes, none of them an END_ENTIRE, and it lies inside the buffer.
  lemma EndIsExact(b: seq<byte>, at: nat, length: nat)
    ensures EndFrom(b, 0) == Some((at, length)) <==>
              && 4 <= length && at + length <= |b| && EndHeader(b[at..], length)
              && exists ns :: AllInner(ns) && EncodeNodes(ns) == b[..at]
  {
    hide EndFrom;
    hide EndHeader;
    if EndFrom(b, 0) == Some((at, length)) {
      var ns := NodesBeforeEnd(b, 0);
      EndInside(b);
      assert b[0..at] == b[..at];
    }
    if 4 <= length && at + length <= |b| && EndHeader(b[at..], length) && exists ns :: AllInner(ns) && EncodeNodes(ns) == b[..at] {
      var ns :| AllInner(ns) && EncodeNodes(ns) == b[..at];
      assert b[0..] == b[..at] + b[at..];
      EndAfterNodes(b, 0, ns, b[at..], length);
    }
  }

  lemma EndInside(b: seq<byte>)
    requires EndFrom(b, 0).Some?
    ensures 4 <= EndFrom(b, 0).value.1 && EndFrom(b, 0).value.0 + EndFrom(b, 0).value.1 <= |b|
  {
  }

  // ---- Nodes on the wire ------------------------------------------------------------------

  // A node is its type, its subtype and a length that counts these four bytes, low byte first.
  lemma NodeOnWire(n: Node)
    requires Inner(n)
    ensures var length := 4 + |n.body|;
            EncodeNode(n) == [n.kind, n.sub, length % 256, length / 256] + n.body
    ensures !(n.kind == 0x7F && n.sub == 0xFF)
  {
  }

  // A file path node (type 4, subtype 4) holds the units low byte first and a NUL.
  lemma {:induction false} FilePathOnWire(p: seq<u16>)
    ensures FilePathNode(p).kind == 4 && FilePathNode(p).sub == 4
    ensures |FilePathNode(p).body| == 2 * |p| + 2
    ensures forall i | 0 <= i <= |p| ::
              var unit := if i < |p| then p[i] else 0;
              FilePathNode(p).body[2 * i] == unit % 256 && FilePathNode(p).body[2 * i + 1] == unit / 256
    ensures FitsNode(p) <==> |p| <= 32764
  {
    forall i | 0 <= i <= |p|
      ensures var unit := if i < |p| then p[i] else 0;
              FilePathNode(p).body[2 * i] == unit % 256 && FilePathNode(p).body[2 * i + 1] == unit / 256
    {
      UnitAt(p + [0], i);
    }
  }

  lemma {:induction false} UnitAt(p: seq<u16>, i: nat)
    requires i < |p|
    ensures EncodeUnits(p)[2 * i] == p[i] % 256 && EncodeUnits(p)[2 * i + 1] == p[i] / 256
    decreases i
  {
    if i > 0 {
      UnitAt(p[1..], i - 1);
      assert EncodeUnits(p) == Le16(p[0]) + EncodeUnits(p[1..]);
    }
  }
}
