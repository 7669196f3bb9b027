/** EFI_LOAD_OPTION parsing and the discovery of boot options from BootOrder and Boot####. */
module LoadOption {
  import opened Bytes
  import opened Efi
  import opened DevicePath

  const OPTION_HEADER_BYTES := 6

  // ---- One load option --------------------------------------------------------------------

  /** Where the file path list starts: just past the first NUL unit at or after `offset`. */
  function SkipDescription(rest: seq<byte>, offset: nat): (e: Option<nat>)
    ensures e.Some? ==> offset + 2 <= e.value <= |rest|
    decreases |rest| - offset
  {
    if offset + 1 >= |rest| then None
    else if FromLe16(rest[offset..offset + 2]) == 0 then Some(offset + 2)
    else SkipDescription(rest, offset + 2)
  }

  /** The device path at the start of a file path list: its nodes through END_ENTIRE. */
  function PathIn(list: seq<byte>): Option<seq<byte>> {
    match EndFrom(list, 0)
    case None => None
    case Some((start, length)) => Some(list[..start + length])
  }

  // It is the beginning of the list that consists of nodes and one END_ENTIRE, whatever follows.
  lemma PathInIsExact(list: seq<byte>, path: seq<byte>)
    ensures PathIn(list) == Some(path) <==>
            exists at: nat ::
              && at + 4 <= |path| <= |list| && path == list[..|path|] && EndHeader(list[at..], |path| - at)
              && exists ns :: AllInner(ns) && EncodeNodes(ns) == list[..at]
  {
    hide EndFrom;
    hide EndHeader;
    hide AllInner;
    hide EncodeNodes;
    if PathIn(list) == Some(path) {
      var (at, length) := EndFrom(list, 0).value;
      EndIsExact(list, at, length);
      assert |path| == at + length;
    }
    if at: nat :| at + 4 <= |path| <= |list| && path == list[..|path|] && EndHeader(list[at..], |path| - at)
                  && exists ns :: AllInner(ns) && EncodeNodes(ns) == list[..at] {
      EndIsExact(list, at, |path| - at);
    }
  }

  /** `accepts` is what the device path library makes of a path whose node lengths are valid. */
  function ParseOption(data: seq<byte>, accepts: seq<byte> -> bool): Option<seq<byte>> {
    if |data| < OPTION_HEADER_BYTES then None
    else
      var attributes, listLength := FromLe32(data[..4]), FromLe16(data[4..6]);
      var rest := data[OPTION_HEADER_BYTES..];
      if attributes % 2 == 0 then None
      else match SkipDescription(rest, 0)
        case None => None
        case Some(start) =>
          var end := start + listLength as int;
          if end > |rest| then None else Accepted(PathIn(rest[start..end]), accepts)
  }

  function Accepted(path: Option<seq<byte>>, accepts: seq<byte> -> bool): Option<seq<byte>> {
    if path.Some? && accepts(path.value) then path else None
  }

  /** `parse_load_option`, with the description scan as the loop it is. */
  method ParseLoadOption(data: seq<byte>, accepts: seq<byte> -> bool) returns (path: Option<seq<byte>>)
    ensures path == ParseOption(data, accepts)
  {
    if |data| < OPTION_HEADER_BYTES {
      return None;
    }
    var attributes, listLength := FromLe32(data[..4]), FromLe16(data[4..6]);
    var rest := data[OPTION_HEADER_BYTES..];
    if attributes % 2 == 0 {
      return None;
    }
    var offset := 0;
    while true
      invariant SkipDescription(rest, 0) == SkipDescription(rest, offset)
      decreases |rest| - offset
    {
      if offset + 1 >= |rest| {
        return None;
      }
      var ch := FromLe16(rest[offset..offset + 2]);
      offset := offset + 2;
      if ch == 0 {
        break;
      }
    }
    var end := offset + listLength as int;
    if end > |rest| {
      return None;
    }
    var list := rest[offset..end];
    var valid := ValidateDevicePathNodes(list);
    if !valid {
      return None;
    }
    path := PathIn(list);
    if !accepts(path.value) {
      return None;
    }
  }

  /** A load option on the wire; the list length truncates to 16 bits. */
  function EncodeOption(attributes: u32, listLength: u16, description: seq<u16>, more: seq<byte>): seq<byte> {
    Le32(attributes) + Le16(listLength) + EncodeUnits(description + [0]) + more
  }

  predicate NulFree(p: seq<u16>) {
    forall i | 0 <= i < |p| :: p[i] != 0
  }

  /** `data` is an active option: a header, a description, a list of `listLength` bytes that starts
      with the device path `path`, and optional data. */
  ghost predicate Describes(data: seq<byte>, attributes: u32, description: seq<u16>, list: seq<byte>, optional: seq<byte>, path: seq<byte>) {
    && attributes % 2 == 1 && NulFree(description) && |list| < 0x1_0000
    && data == EncodeOption(attributes, |list|, description, list + optional)
    && PathIn(list) == Some(path)
  }

  lemma {:induction false} SkipsDescription(before: seq<byte>, description: seq<u16>, more: seq<byte>)
    requires NulFree(description)
    ensures var rest := before + EncodeUnits(description + [0]) + more;
            SkipDescription(rest, |before|) == Some(|before| + 2 * (|description| + 1))
    decreases |description|
  {
    var rest := before + EncodeUnits(description + [0]) + more;
    var first := (description + [0])[0];
    assert EncodeUnits(description + [0]) == Le16(first) + EncodeUnits((description + [0])[1..]);
    assert rest[|before|..|before| + 2] == Le16(first);
    Le16RoundTrip(first);
    if description != [] {
      assert (description + [0])[1..] == description[1..] + [0];
      assert rest == (before + Le16(first)) + EncodeUnits(description[1..] + [0]) + more;
      SkipsDescription(before + Le16(first), description[1..], more);
    }
  }

  // Every active option parses to the path its list starts with, whatever optional data follows.
  lemma DescribedParses(data: seq<byte>, attributes: u32, description: seq<u16>, list: seq<byte>, optional: seq<byte>, path: seq<byte>,
                        accepts: seq<byte> -> bool)
    requires Describes(data, attributes, description, list, optional, path) && accepts(path)
    ensures ParseOption(data, accepts) == Some(path)
  {
    var units := EncodeUnits(description + [0]);
    var more := list + optional;
    ListLengthAt(attributes, |list|, description, more);
    hide EncodeOption;
    hide EncodeUnits;
    Le32RoundTrip(attributes);
    Le16RoundTrip(|list|);
    SkipsDescription([], description, more);
    assert [] + units + more == units + more;
    Middle(units, list, optional);
  }

  lemma Middle(a: seq<byte>, b: seq<byte>, c: seq<byte>)
    ensures (a + (b + c))[|a|..|a| + |b|] == b
  {
  }

  lemma {:induction false} DescriptionOf(rest: seq<byte>, offset: nat) returns (description: seq<u16>)
    requires SkipDescription(rest, offset).Some?
    ensures NulFree(description)
    ensures rest[offset..SkipDescription(rest, offset).value] == EncodeUnits(description + [0])
    decreases |rest| - offset
  {
    var unit := FromLe16(rest[offset..offset + 2]);
    Le16Inverse(rest[offset..offset + 2]);
    if unit == 0 {
      description := [];
      assert EncodeUnits([]) == [];
      assert ([] + [0])[1..] == [];
    } else {
      var more := DescriptionOf(rest, offset + 2);
      description := [unit] + more;
      var end := SkipDescription(rest, offset).value;
      assert (description + [0])[1..] == more + [0];
      assert rest[offset..end] == rest[offset..offset + 2] + rest[offset + 2..end];
    }
  }

  // On arbitrary bytes a path comes out exactly when they are such an option and the device path
  // library accepts it, and it is that path.
  lemma ParseIsExact(data: seq<byte>, path: seq<byte>, accepts: seq<byte> -> bool)
    ensures ParseOption(data, accepts) == Some(path) <==>
            accepts(path) && exists attributes, description, list, optional :: Describes(data, attributes, description, list, optional, path)
  {
    if ParseOption(data, accepts) == Some(path) {
      var attributes, description, list, optional := Decompose(data, path, accepts);
    }
    if accepts(path) && exists attributes, description, list, optional :: Describes(data, attributes, description, list, optional, path) {
      var attributes, description, list, optional :| Describes(data, attributes, description, list, optional, path);
      DescribedParses(data, attributes, description, list, optional, path, accepts);
    }
  }

  lemma Decompose(data: seq<byte>, path: seq<byte>, accepts: seq<byte> -> bool)
    returns (attributes: u32, description: seq<u16>, list: seq<byte>, optional: seq<byte>)
    requires ParseOption(data, accepts) == Some(path)
    ensures Describes(data, attributes, description, list, optional, path)
  {
    hide FromLe16;
    hide FromLe32;
    hide SkipDescription;
    attributes := FromLe32(data[..4]);
    var listLength := FromLe16(data[4..6]);
    var rest := data[OPTION_HEADER_BYTES..];
    var start := SkipDescription(rest, 0).value;
    description := DescriptionOf(rest, 0);
    list, optional := rest[start..start + listLength as int], rest[start + listLength as int..];
    Le32Inverse(data[..4]);
    Le16Inverse(data[4..6]);
    assert rest == rest[0..start] + (list + optional);
    assert data == data[..4] + data[4..6] + rest;
  }

  // The round trip of a whole path: an active option built from a NUL-free description and a path
  // that ends in its END_ENTIRE parses back to that path exactly when its length fits 16 bits and the
  // device path library accepts it.
  lemma OptionRoundTrip(attributes: u32, description: seq<u16>, path: seq<byte>, ns: seq<Node>, optional: seq<byte>,
                        accepts: seq<byte> -> bool)
    requires attributes % 2 == 1 && NulFree(description) && IsPath(path, |path|, ns)
    ensures ParseOption(EncodeOption(attributes, ToU16(|path|), description, path + optional), accepts) == Some(path)
       <==> |path| < 0x1_0000 && accepts(path)
  {
    hide ParseOption;
    hide IsPath;
    hide PathIn;
    hide NulFree;
    hide Le16;
    hide FromLe16;
    ListLengthAt(attributes, ToU16(|path|), description, path + optional);
    hide EncodeOption;
    var data := EncodeOption(attributes, ToU16(|path|), description, path + optional);
    if |path| < 0x1_0000 && accepts(path) {
      assert ToU16(|path|) == |path|;
      WholePathIn(path, ns);
      assert Describes(data, attributes, description, path, optional, path);
      DescribedParses(data, attributes, description, path, optional, path, accepts);
    } else {
      Le16RoundTrip(ToU16(|path|));
      NoLongerThanList(data, path, accepts);
    }
  }

  // Such a path exists: two 40000-byte nodes are valid, and the option built from them loses them.
  lemma LongPathIsLost(attributes: u32, description: seq<u16>, optional: seq<byte>, accepts: seq<byte> -> bool)
    returns (path: seq<byte>)
    requires attributes % 2 == 1 && NulFree(description)
    ensures exists ns :: IsPath(path, |path|, ns)
    ensures ParseOption(EncodeOption(attributes, ToU16(|path|), description, path + optional), accepts) != Some(path)
  {
    var n := Node(1, 1, Zeros(40000));
    var once := EncodeNode(n);
    assert |once| == 40004;
    assert [n][1..] == [] && EncodeNodes([]) == [];
    assert EncodeNodes([n]) == once + [];
    assert [n, n][1..] == [n];
    assert EncodeNodes([n, n]) == once + EncodeNodes([n]);
    path := EncodeNodes([n, n]) + END_ENTIRE;
    assert |path| == 80012;
    assert path[..|path|] == path;
    assert IsPath(path, |path|, [n, n]);
    OptionRoundTrip(attributes, description, path, [n, n], optional, accepts);
  }

  lemma NoLongerThanList(data: seq<byte>, path: seq<byte>, accepts: seq<byte> -> bool)
    requires |data| >= OPTION_HEADER_BYTES
    ensures ParseOption(data, accepts) == Some(path) ==> |path| <= FromLe16(data[4..6]) as int && accepts(path)
  {
  }

  lemma ListLengthAt(attributes: u32, listLength: u16, description: seq<u16>, more: seq<byte>)
    ensures var data := EncodeOption(attributes, listLength, description, more);
            && |data| >= OPTION_HEADER_BYTES && data[..4] == Le32(attributes) && data[4..6] == Le16(listLength)
            && data[OPTION_HEADER_BYTES..] == EncodeUnits(description + [0]) + more
  {
  }

  lemma WholePathIn(path: seq<byte>, ns: seq<Node>)
    requires IsPath(path, |path|, ns)
    ensures PathIn(path) == Some(path)
  {
    assert path[..|path|] == path;
    EndOfNodes(path, 0, ns);
  }

  // ---- Discovery --------------------------------------------------------------------------

  /** The Boot#### variables by number and the verdict of the device path library on a path. */
  datatype Firmware = Firmware(vars: u16 -> Option<seq<byte>>, accepts: seq<byte> -> bool)

  /** What the option number `n` contributes: a readable, active, well-formed entry's path. */
  function PathOf(fw: Firmware, n: u16): Option<seq<byte>> {
    match fw.vars(n)
    case None => None
    case Some(data) => ParseOption(data, fw.accepts)
  }

  function OrderEntry(order: seq<byte>, i: nat): u16
    requires 2 * i + 2 <= |order|
  {
    FromLe16(order[2 * i..2 * i + 2])
  }

  /** The positions of BootOrder, up to `k`, that yield a path. */
  function Bootable(order: seq<byte>, fw: Firmware, k: nat): (positions: seq<nat>)
    requires 2 * k <= |order|
    ensures forall j | 0 <= j < |positions| :: positions[j] < k && PathOf(fw, OrderEntry(order, positions[j])).Some?
  {
    if k == 0 then []
    else Bootable(order, fw, k - 1) + if PathOf(fw, OrderEntry(order, k - 1)).Some? then [k - 1] else []
  }

  /** `paths` are the bootable entries of the first `k` in BootOrder's own order. */
  ghost predicate Discovered(order: seq<byte>, fw: Firmware, k: nat, paths: seq<seq<byte>>)
    requires 2 * k <= |order|
  {
    var positions := Bootable(order, fw, k);
    && |paths| == |positions|
    && forall j | 0 <= j < |paths| :: PathOf(fw, OrderEntry(order, positions[j])) == Some(paths[j])
  }

  // The positions are strictly increasing and miss no bootable entry.
  lemma {:induction false} BootableIsAFilter(order: seq<byte>, fw: Firmware, k: nat)
    requires 2 * k <= |order|
    ensures var positions := Bootable(order, fw, k);
            && (forall i, j | 0 <= i < j < |positions| :: positions[i] < positions[j])
            && (forall i | 0 <= i < k :: PathOf(fw, OrderEntry(order, i)).Some? <==> i in positions)
  {
    hide PathOf;
    hide OrderEntry;
    if k > 0 {
      BootableIsAFilter(order, fw, k - 1);
      var before, positions := Bootable(order, fw, k - 1), Bootable(order, fw, k);
      forall i | 0 <= i < k
        ensures PathOf(fw, OrderEntry(order, i)).Some? <==> i in positions
      {
        if i == k - 1 {
          if PathOf(fw, OrderEntry(order, i)).Some? { assert positions[|before|] == i; }
        } else {
          assert i in positions <==> i in before;
        }
      }
    }
  }

  /** Entry `i` of BootOrder, its number in bytes 2i and 2i + 1 with the low one first, names an
      option that parses to `path`. */
  ghost predicate Yields(order: seq<byte>, fw: Firmware, i: nat, path: seq<byte>) {
    && 2 * i + 1 < |order|
    && var n: u16 := order[2 * i] as int + 256 * order[2 * i + 1] as int;
       fw.vars(n).Some? && ParseOption(fw.vars(n).value, fw.accepts) == Some(path)
  }

  /** The entries at `at` yield `paths`, in order, and no other entry yields any. */
  ghost predicate InOrder(order: seq<byte>, fw: Firmware, at: seq<nat>, paths: seq<seq<byte>>) {
    && |at| == |paths|
    && (forall j | 0 <= j < |at| :: Yields(order, fw, at[j], paths[j]))
    && (forall i, j | 0 <= i < j < |at| :: at[i] < at[j])
    && (forall i: nat, path | Yields(order, fw, i, path) :: i in at)
  }

  lemma YieldsIsPathOf(order: seq<byte>, fw: Firmware, i: nat, path: seq<byte>)
    ensures Yields(order, fw, i, path) <==> 2 * i + 2 <= |order| && PathOf(fw, OrderEntry(order, i)) == Some(path)
  {
    hide ParseOption;
    if 2 * i + 2 <= |order| {
      assert order[2 * i..2 * i + 2] == [order[2 * i], order[2 * i + 1]];
    }
  }

  lemma EmptyOrder(order: seq<byte>, fw: Firmware)
    ensures order == [] ==> forall i: nat, path :: !Yields(order, fw, i, path)
  {
  }

  // What is discovered is what BootOrder's numbers yield, entry by entry.
  lemma DiscoveredInOrder(order: seq<byte>, fw: Firmware, paths: seq<seq<byte>>)
    requires |order| % 2 == 0 && Discovered(order, fw, |order| / 2, paths)
    ensures InOrder(order, fw, Bootable(order, fw, |order| / 2), paths)
    ensures paths == [] ==> forall i: nat, path :: !Yields(order, fw, i, path)
  {
    hide Yields;
    hide PathOf;
    hide OrderEntry;
    hide Bootable;
    var at := Bootable(order, fw, |order| / 2);
    BootableIsAFilter(order, fw, |order| / 2);
    forall j | 0 <= j < |at| ensures Yields(order, fw, at[j], paths[j]) {
      YieldsIsPathOf(order, fw, at[j], paths[j]);
    }
    forall i: nat, path | Yields(order, fw, i, path) ensures i in at {
      YieldsIsPathOf(order, fw, i, path);
    }
  }

  /** `discover_boot_options`: BootOrder as it was read, and the rest of firmware. */
  method DiscoverBootOptions(order: Result<seq<byte>, Status>, fw: Firmware)
    returns (r: Result<seq<seq<byte>>, Status>)
    ensures order.Err? ==> r == Err(order.error)
    ensures order.Ok? && (|order.value| == 0 || |order.value| % 2 != 0) ==> r == Err(NotFound)
    ensures order.Ok? && |order.value| > 0 && |order.value| % 2 == 0 ==>
              && (r.Ok? <==> Bootable(order.value, fw, |order.value| / 2) != [])
              && (r.Ok? ==> Discovered(order.value, fw, |order.value| / 2, r.value))
              && (r.Err? ==> r == Err(NotFound))
    // The paths are those of the option numbers that yield one, in BootOrder's order; without any,
    // there are no boot options.
    ensures r.Ok? ==> order.Ok? && r.value != [] && exists at :: InOrder(order.value, fw, at, r.value)
    ensures order.Ok? && |order.value| % 2 == 0 && r.Err? ==> forall i: nat, path :: !Yields(order.value, fw, i, path)
  {
    hide Yields;
    hide InOrder;
    hide ParseOption;
    hide OrderEntry;
    if order.Err? {
      return Err(order.error);
    }
    var bytes := order.value;
    if |bytes| % 2 != 0 || |bytes| == 0 {
      EmptyOrder(bytes, fw);
      return Err(NotFound);
    }
    var paths: seq<seq<byte>> := [];
    for i := 0 to |bytes| / 2
      invariant Discovered(bytes, fw, i, paths)
    {
      var data := fw.vars(OrderEntry(bytes, i));
      if data.None? {
        continue;
      }
      var path := ParseLoadOption(data.value, fw.accepts);
      if path.Some? {
        paths := paths + [path.value];
      }
    }
    DiscoveredInOrder(bytes, fw, paths);
    if paths == [] {
      return Err(NotFound);
    }
    return Ok(paths);
  }
}
