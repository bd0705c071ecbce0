/** Inserting into and removing from a dictionary trie. */
module DictOps {
  import opened Cells
  import opened Labels
  import opened CellIo
  import opened DictTrie
  import CellHash

  datatype SetMode = Set | Replace | Add {
    predicate CanReplace() { Set? || Replace? }
    predicate CanAdd() { Set? || Add? }
  }

  /** Replacing needs the key to be there, adding needs it not to be. */
  predicate Refused(mode: SetMode, present: Option<Slice>) {
    match mode
    case Set => false
    case Replace => present.None?
    case Add => present.Some?
  }

  // ---------------------------------------------------------------- single steps

  /** Splits an edge in two where `key` leaves its label after `l` bits. */
  function SplitEdge(data: Slice, part: seq<bool>, l: nat, key: seq<bool>, value: Slice): Result<Cell, DictError>
    requires l < |part| && l < |key|
  {
    var n := |key| - l - 1;
    match EdgeCell(part[l + 1..], n, data.bits, data.refs)
    case Err(e) => Err(e)
    case Ok(kept) =>
      match EdgeCell(key[l + 1..], n, value.bits, value.refs)
      case Err(e) => Err(e)
      case Ok(leaf) => EdgeCell(key[..l], |key|, [], if part[l] then [leaf, kept] else [kept, leaf])
  }

  /** The fork `c` with one child exchanged. */
  function RebuildFork(c: Cell, bit: bool, child: Cell): Result<Cell, DictError>
    requires |c.refs| >= 2
  {
    BuildOrdinary(c.bits, if bit then [c.refs[0], child] else [child, c.refs[1]])
  }

  /** Joins the label of a fork with the edge that remains when child `bit` is removed. */
  function MergeEdges(c: Cell, n: nat, bit: bool, below: nat): Result<Cell, DictError>
    requires |c.refs| >= 2
  {
    match ParseLabel(c.bits, n)
    case Err(e) => Err(e)
    case Ok((part, _)) =>
      match View(Child(c, !bit), below)
      case Err(e) => Err(e)
      case Ok((rem, rest)) => EdgeCell(part + [!bit] + rem, n, rest, Child(c, !bit).refs)
  }

  // ---------------------------------------------------------------- whole operations

  /** The new trie, or `None` when the mode forbids the change. */
  function Insert(c: Cell, key: seq<bool>, value: Slice, mode: SetMode): Result<Option<Cell>, DictError>
    decreases c
  {
    match View(c, |key|)
    case Err(e) => Err(e)
    case Ok((part, rest)) =>
      var l := CommonPrefix(key, part);
      if l == |key| then
        if mode.CanReplace() then Changed(EdgeCell(part, |key|, value.bits, value.refs)) else Ok(None)
      else if l < |part| then
        if mode.CanAdd() then Changed(SplitEdge(Slice(rest, c.refs), part, l, key, value)) else Ok(None)
      else if |c.refs| < 2 then Err(CellUnderflow)
      else
        match Insert(Child(c, key[l]), key[l + 1..], value, mode)
        case Err(e) => Err(e)
        case Ok(None) => Ok(None)
        case Ok(Some(child)) => Changed(RebuildFork(c, key[l], child))
  }

  function Changed(r: Result<Cell, DictError>): Result<Option<Cell>, DictError> {
    match r
    case Err(e) => Err(e)
    case Ok(c) => Ok(Some(c))
  }

  datatype Removal = NotFound | Gone(value: Slice) | Left(cell: Cell, value: Slice)

  /** Removing a key: not there, nothing left of this edge, or what is left of it. */
  function Remove(c: Cell, key: seq<bool>): Result<Removal, DictError>
    decreases c
  {
    match View(c, |key|)
    case Err(e) => Err(e)
    case Ok((part, rest)) =>
      var l := CommonPrefix(key, part);
      if l == |key| then Ok(Gone(Slice(rest, c.refs)))
      else if l < |part| then Ok(NotFound)
      else if |c.refs| < 2 then Err(CellUnderflow)
      else
        match Remove(Child(c, key[l]), key[l + 1..])
        case Err(e) => Err(e)
        case Ok(NotFound) => Ok(NotFound)
        case Ok(Gone(v)) => Remaining(MergeEdges(c, |key|, key[l], |key| - l - 1), v)
        case Ok(Left(child, v)) => Remaining(RebuildFork(c, key[l], child), v)
  }

  function Remaining(r: Result<Cell, DictError>, value: Slice): Result<Removal, DictError> {
    match r
    case Err(e) => Err(e)
    case Ok(c) => Ok(Left(c, value))
  }

  // ---------------------------------------------------------------- the operations as the code runs them

  method MakeEdge(sha: CellHash.Sha, part: seq<bool>, n: nat, value: Slice) returns (r: Result<Cell, DictError>)
    requires n <= MAX_BIT_LEN
    ensures r == EdgeCell(part, n, value.bits, value.refs)
  {
    hide LabelCode, BitLength, CellHash.Shallow;
    KeyLengthBits(n);
    var b := new CellBuilder();
    var written := WriteLabel(part, n, b);
    if written.Err? { return Err(written.error); }
    var ok := b.StoreSlice(value);
    if !ok { return Err(CellOverflow); }
    assert b.refs == value.refs;
    r := b.Build(sha);
  }

  method SplitEdgeCell(sha: CellHash.Sha, data: Slice, part: seq<bool>, l: nat, key: seq<bool>, value: Slice)
    returns (r: Result<Cell, DictError>)
    requires l < |part| && l < |key| <= MAX_BIT_LEN
    ensures r == SplitEdge(data, part, l, key, value)
  {
    hide EdgeCell;
    var n := |key| - l - 1;
    var oldToRight := part[l];
    var left := MakeEdge(sha, part[l + 1..], n, data);
    if left.Err? { return left; }
    var right := MakeEdge(sha, key[l + 1..], n, value);
    if right.Err? { return right; }
    if oldToRight { left, right := right, left; }
    r := MakeEdge(sha, key[..l], |key|, Slice([], [left.value, right.value]));
  }

  datatype Segment = Segment(data: Cell, bit: bool, keyBits: nat)

  /** Rebuilds the path above a new cell, innermost segment first. */
  function Plug(segments: seq<Segment>, leaf: Cell): Result<Cell, DictError> {
    if segments == [] then Ok(leaf)
    else
      var last := segments[|segments| - 1];
      if |last.data.refs| < 2 then Err(CellUnderflow)
      else
        match RebuildFork(last.data, last.bit, leaf)
        case Err(e) => Err(e)
        case Ok(c) => Plug(segments[..|segments| - 1], c)
  }

  method RebuildForkCell(sha: CellHash.Sha, last: Segment, leaf: Cell) returns (r: Result<Cell, DictError>)
    requires |last.data.refs| >= 2
    ensures r == RebuildFork(last.data, last.bit, leaf)
  {
    hide CellHash.Shallow;
    var left, right := if last.bit then last.data.refs[0] else leaf, if last.bit then leaf else last.data.refs[1];
    var b := new CellBuilder();
    var ok := b.StoreBits(last.data.bits);
    if !ok { return Err(CellOverflow); }
    ok := b.StoreReference(left);
    ok := b.StoreReference(right);
    assert b.bits == last.data.bits && b.refs == [left, right];
    r := b.Build(sha);
  }

  method RebuildFromStack(sha: CellHash.Sha, stack: seq<Segment>, start: Cell) returns (r: Result<Cell, DictError>)
    requires forall i :: 0 <= i < |stack| ==> |stack[i].data.refs| >= 2
    ensures r == Plug(stack, start)
  {
    hide RebuildFork;
    var segments, leaf := stack, start;
    while segments != []
      invariant segments <= stack
      invariant Plug(segments, leaf) == Plug(stack, start)
      decreases |segments|
    {
      var last := segments[|segments| - 1];
      segments := segments[..|segments| - 1];
      var built := RebuildForkCell(sha, last, leaf);
      if built.Err? { return built; }
      leaf := built.value;
    }
    r := Ok(leaf);
  }

  /** What a change at the end of the path means for the whole trie. */
  function PlugChange(segments: seq<Segment>, r: Result<Option<Cell>, DictError>): Result<Option<Cell>, DictError> {
    match r
    case Err(e) => Err(e)
    case Ok(None) => Ok(None)
    case Ok(Some(leaf)) => Changed(Plug(segments, leaf))
  }

  /** The same for a removal; `below` is the number of key bits left under the last segment. */
  function PlugRemoval(segments: seq<Segment>, below: nat, r: Result<Removal, DictError>): Result<Removal, DictError> {
    match r
    case Err(e) => Err(e)
    case Ok(NotFound) => Ok(NotFound)
    case Ok(Left(leaf, v)) => Remaining(Plug(segments, leaf), v)
    case Ok(Gone(v)) =>
      if segments == [] then Ok(Gone(v))
      else
        var last := segments[|segments| - 1];
        if |last.data.refs| < 2 then Err(CellUnderflow)
        else
          match MergeEdges(last.data, last.keyBits, last.bit, below)
          case Err(e) => Err(e)
          case Ok(c) => Remaining(Plug(segments[..|segments| - 1], c), v)
  }

  lemma {:induction false} PlugStep(segments: seq<Segment>, last: Segment, leaf: Cell)
    requires |last.data.refs| >= 2
    ensures var built := RebuildFork(last.data, last.bit, leaf);
      Plug(segments + [last], leaf) == if built.Ok? then Plug(segments, built.value) else built
  {
    assert (segments + [last])[..|segments|] == segments;
  }

  /** Going one segment deeper keeps what the operation will do to the whole trie. */
  lemma {:induction false} InsertStep(segments: seq<Segment>, c: Cell, key: seq<bool>, value: Slice, mode: SetMode, l: nat)
    requires View(c, |key|).Ok? && l == CommonPrefix(key, View(c, |key|).value.0)
    requires l < |key| && l == |View(c, |key|).value.0| && |c.refs| >= 2
    ensures PlugChange(segments, Insert(c, key, value, mode)) ==
      PlugChange(segments + [Segment(c, key[l], |key|)], Insert(Child(c, key[l]), key[l + 1..], value, mode))
  {
    hide View, EdgeCell, SplitEdge, RebuildFork, CommonPrefix, Plug, BuildOrdinary;
    var below := Insert(Child(c, key[l]), key[l + 1..], value, mode);
    if below.Ok? && below.value.Some? {
      PlugStep(segments, Segment(c, key[l], |key|), below.value.value);
    }
  }

  lemma {:induction false} RemoveStep(segments: seq<Segment>, c: Cell, key: seq<bool>, l: nat)
    requires View(c, |key|).Ok? && l == CommonPrefix(key, View(c, |key|).value.0)
    requires l < |key| && l == |View(c, |key|).value.0| && |c.refs| >= 2
    ensures PlugRemoval(segments, |key|, Remove(c, key)) ==
      PlugRemoval(segments + [Segment(c, key[l], |key|)], |key| - l - 1, Remove(Child(c, key[l]), key[l + 1..]))
  {
    hide View, MergeEdges, RebuildFork, CommonPrefix, Plug;
    var last := Segment(c, key[l], |key|);
    var below := Remove(Child(c, key[l]), key[l + 1..]);
    assert (segments + [last])[..|segments|] == segments;
    if below.Ok? && below.value.Left? {
      PlugStep(segments, last, below.value.cell);
    }
  }

  /** The new root after storing a value, or `None` when nothing changes. */
  function SetOutcome(root: Option<Cell>, n: nat, key: seq<bool>, value: Slice, mode: SetMode): Result<Option<Cell>, DictError> {
    if |key| != n then Err(CellUnderflow)
    else if root.Some? then Insert(root.value, key, value, mode)
    else if mode.CanAdd() then Changed(EdgeCell(key, n, value.bits, value.refs))
    else Ok(None)
  }

  function RemoveOutcome(root: Option<Cell>, n: nat, key: seq<bool>): Result<Removal, DictError> {
    if |key| != n then Err(CellUnderflow)
    else if root.Some? then Remove(root.value, key)
    else Ok(NotFound)
  }

  function RemovedValue(removal: Removal): Option<Slice> {
    if removal.NotFound? then None else Some(removal.value)
  }

  function RemainingRoot(root: Option<Cell>, removal: Removal): Option<Cell> {
    match removal
    case NotFound => root
    case Gone(_) => None
    case Left(c, _) => Some(c)
  }

  /** Walks down to the edge that has to change, then rebuilds the path to the root. */
  method InsertInto(sha: CellHash.Sha, start: Cell, wholeKey: seq<bool>, value: Slice, mode: SetMode)
    returns (r: Result<Option<Cell>, DictError>)
    requires |wholeKey| <= MAX_BIT_LEN
    ensures r == Insert(start, wholeKey, value, mode)
  {
    hide EdgeCell, BuildOrdinary, BitLength, UintBits, BitsUint;
    var data, key := start, wholeKey;
    var stack: seq<Segment> := [];
    var leaf;
    while true
      invariant |key| <= MAX_BIT_LEN
      invariant forall i :: 0 <= i < |stack| ==> |stack[i].data.refs| >= 2
      invariant PlugChange(stack, Insert(data, key, value, mode)) == Insert(start, wholeKey, value, mode)
      decreases |key|
    {
      if data.exotic { return Err(UnexpectedExoticCell); }
      var remaining := new CellSlice(Slice(data.bits, data.refs));
      var part := ReadLabel(remaining, |key|);
      if part.Err? { return Err(part.error); }
      var l := CommonPrefix(key, part.value);
      if l == |key| {
        if !mode.CanReplace() { return Ok(None); }
        leaf := MakeEdge(sha, part.value, |key|, value);
        break;
      } else if l < |part.value| {
        if !mode.CanAdd() { return Ok(None); }
        leaf := SplitEdgeCell(sha, Slice(remaining.bits, remaining.refs), part.value, l, key, value);
        break;
      }
      if |data.refs| < 2 { return Err(CellUnderflow); }
      InsertStep(stack, data, key, value, mode, l);
      stack := stack + [Segment(data, key[l], |key|)];
      data, key := Child(data, key[l]), key[l + 1..];
    }
    if leaf.Err? { return Err(leaf.error); }
    var rebuilt := RebuildFromStack(sha, stack, leaf.value);
    r := if rebuilt.Ok? then Ok(Some(rebuilt.value)) else Err(rebuilt.error);
  }

  /** The edge that is left of a fork when one of its two children goes. */
  method RebuildAsRemoved(sha: CellHash.Sha, last: Segment, below: nat) returns (r: Result<Cell, DictError>)
    requires |last.data.refs| >= 2 && last.keyBits <= MAX_BIT_LEN
    ensures r == MergeEdges(last.data, last.keyBits, last.bit, below)
  {
    hide LabelCode, BitLength, UintBits, BitsUint, CellHash.Shallow;
    KeyLengthBits(last.keyBits);
    var data := new CellSlice(Slice(last.data.bits, last.data.refs));
    var prefix := ReadLabel(data, last.keyBits);
    if prefix.Err? { return Err(prefix.error); }
    var sibling := Child(last.data, !last.bit);
    if sibling.exotic { return Err(UnexpectedExoticCell); }
    var opposite := new CellSlice(Slice(sibling.bits, sibling.refs));
    var rem := ReadLabel(opposite, below);
    if rem.Err? { return Err(rem.error); }
    var b := new CellBuilder();
    var written := WriteLabelParts(prefix.value, !last.bit, rem.value, last.keyBits, b);
    if written.Err? { return Err(written.error); }
    var ok := b.StoreSlice(Slice(opposite.bits, opposite.refs));
    if !ok { return Err(CellOverflow); }
    assert b.refs == opposite.refs;
    r := b.Build(sha);
  }

  /** Finds the leaf of a key, drops it and joins the edges around it. */
  method RemoveFrom(sha: CellHash.Sha, start: Cell, wholeKey: seq<bool>) returns (r: Result<Removal, DictError>)
    requires |wholeKey| <= MAX_BIT_LEN
    ensures r == Remove(start, wholeKey)
  {
    hide EdgeCell, BuildOrdinary, BitLength, UintBits, BitsUint;
    var data, key := start, wholeKey;
    var stack: seq<Segment> := [];
    var removed: Slice;
    while true
      invariant |key| <= MAX_BIT_LEN
      invariant forall i :: 0 <= i < |stack| ==> |stack[i].data.refs| >= 2 && stack[i].keyBits <= MAX_BIT_LEN
      invariant PlugRemoval(stack, |key|, Remove(data, key)) == Remove(start, wholeKey)
      decreases |key|
    {
      if data.exotic { return Err(UnexpectedExoticCell); }
      var remaining := new CellSlice(Slice(data.bits, data.refs));
      var part := ReadLabel(remaining, |key|);
      if part.Err? { return Err(part.error); }
      var l := CommonPrefix(key, part.value);
      if l == |key| {
        removed := Slice(remaining.bits, remaining.refs);
        break;
      } else if l < |part.value| {
        return Ok(NotFound);
      }
      if |data.refs| < 2 { return Err(CellUnderflow); }
      RemoveStep(stack, data, key, l);
      stack := stack + [Segment(data, key[l], |key|)];
      data, key := Child(data, key[l]), key[l + 1..];
    }
    if stack == [] { return Ok(Gone(removed)); }
    var last := stack[|stack| - 1];
    var leaf := RebuildAsRemoved(sha, last, |key|);
    if leaf.Err? { return Err(leaf.error); }
    var rebuilt := RebuildFromStack(sha, stack[..|stack| - 1], leaf.value);
    r := if rebuilt.Ok? then Ok(Left(rebuilt.value, removed)) else Err(rebuilt.error);
  }
}
