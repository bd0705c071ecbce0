/** Augmented dictionaries: every fork carries the combination of what its two branches carry. */
module DictAug {
  import opened Cells
  import opened Labels
  import opened CellIo
  import opened DictTrie
  import opened DictOps
  import opened DictLaws
  import CellHash

  /** Combines two branches, given what they hold behind their labels; the result is appended to the fork. */
  type AugFn = (Slice, Slice) -> Result<Slice, DictError>

  /** What follows the label of an edge, and the two branches if it is a fork. */
  function Payload(c: Cell, n: nat): Result<Slice, DictError> {
    match View(c, n)
    case Err(e) => Err(e)
    case Ok((part, rest)) =>
      if |part| >= n then Ok(Slice(rest, c.refs))
      else if |c.refs| < 2 then Err(CellUnderflow)
      else Ok(Slice(rest, c.refs[2..]))
  }

  /** A fork above two edges, with their combination behind its label. */
  function AugFork(cmp: AugFn, part: seq<bool>, n: nat, left: Cell, right: Cell): Result<Cell, DictError>
    requires |part| < n
  {
    var l, r := Payload(left, n - |part| - 1), Payload(right, n - |part| - 1);
    if l.Err? then Err(l.error)
    else if r.Err? then Err(r.error)
    else if LabelCode(part, n).Err? then Err(LabelCode(part, n).error)
    else
      match cmp(l.value, r.value)
      case Err(e) => Err(e)
      case Ok(sum) => EdgeCell(part, n, sum.bits, [left, right] + sum.refs)
  }

  function SplitAugEdge(cmp: AugFn, data: Slice, part: seq<bool>, l: nat, key: seq<bool>, value: Slice): Result<Cell, DictError>
    requires l < |part| && l < |key|
  {
    var n := |key| - l - 1;
    match EdgeCell(part[l + 1..], n, data.bits, data.refs)
    case Err(e) => Err(e)
    case Ok(kept) =>
      match EdgeCell(key[l + 1..], n, value.bits, value.refs)
      case Err(e) => Err(e)
      case Ok(leaf) =>
        if part[l] then AugFork(cmp, key[..l], |key|, leaf, kept) else AugFork(cmp, key[..l], |key|, kept, leaf)
  }

  /** The fork `c` with one child exchanged and its combination computed anew. */
  function RebuildAugFork(cmp: AugFn, c: Cell, n: nat, bit: bool, child: Cell): Result<Cell, DictError>
    requires |c.refs| >= 2
  {
    match View(c, n)
    case Err(e) => Err(e)
    case Ok((part, _)) =>
      if |part| >= n then Err(CellUnderflow)
      else if bit then AugFork(cmp, part, n, c.refs[0], child)
      else AugFork(cmp, part, n, child, c.refs[1])
  }

  function AugInsert(cmp: AugFn, c: Cell, key: seq<bool>, value: Slice, mode: SetMode): Result<Option<Cell>, DictError>
    decreases c
  {
    match View(c, |key|)
    case Err(e) => Err(e)
    case Ok((part, rest)) =>
      var l := CommonPrefix(key, part);
      if l == |key| then
        if mode.CanReplace() then Changed(EdgeCell(part, |key|, value.bits, value.refs)) else Ok(None)
      else if l < |part| then
        if mode.CanAdd() then Changed(SplitAugEdge(cmp, Slice(rest, c.refs), part, l, key, value)) else Ok(None)
      else if |c.refs| < 2 then Err(CellUnderflow)
      else
        match AugInsert(cmp, Child(c, key[l]), key[l + 1..], value, mode)
        case Err(e) => Err(e)
        case Ok(None) => Ok(None)
        case Ok(Some(child)) => Changed(RebuildAugFork(cmp, c, |key|, key[l], child))
  }

  function AugRemove(cmp: AugFn, c: Cell, key: seq<bool>): Result<Removal, DictError>
    decreases c
  {
    match View(c, |key|)
    case Err(e) => Err(e)
    case Ok((part, rest)) =>
      var l := CommonPrefix(key, part);
      if l == |key| then Ok(Gone(Slice(rest, c.refs)))
      else if l < |part| then Ok(NotFound)
      else if |c.refs| < 2 then Err(CellUnderflow)
      else
        match AugRemove(cmp, Child(c, key[l]), key[l + 1..])
        case Err(e) => Err(e)
        case Ok(NotFound) => Ok(NotFound)
        case Ok(Gone(v)) => Remaining(MergeEdges(c, |key|, key[l], |key| - l - 1), v)
        case Ok(Left(child, v)) => Remaining(RebuildAugFork(cmp, c, |key|, key[l], child), v)
  }

  // ---------------------------------------------------------------- the operations as the code runs them

  /** Skips a label and the branches below it. */
  method SkipLabelFull(c: Cell, n: nat) returns (r: Result<Slice, DictError>)
    ensures r == Payload(c, n)
  {
    hide ParseLabel;
    if c.exotic { return Err(UnexpectedExoticCell); }
    var slice := new CellSlice(Slice(c.bits, c.refs));
    var part := ReadLabel(slice, n);
    if part.Err? { return Err(part.error); }
    if |part.value| < n {
      if |slice.refs| < 2 { return Err(CellUnderflow); }
      return Ok(Slice(slice.bits, slice.refs[2..]));
    }
    r := Ok(Slice(slice.bits, slice.refs));
  }

  method MakeAugFork(sha: CellHash.Sha, cmp: AugFn, part: seq<bool>, n: nat, left: Cell, right: Cell)
    returns (r: Result<Cell, DictError>)
    requires |part| < n <= MAX_BIT_LEN
    ensures r == AugFork(cmp, part, n, left, right)
  {
    hide LabelCode, BitLength, CellHash.Shallow, Payload;
    KeyLengthBits(n);
    var leftSlice := SkipLabelFull(left, n - |part| - 1);
    if leftSlice.Err? { return Err(leftSlice.error); }
    var rightSlice := SkipLabelFull(right, n - |part| - 1);
    if rightSlice.Err? { return Err(rightSlice.error); }
    var b := new CellBuilder();
    var written := WriteLabel(part, n, b);
    if written.Err? { return Err(written.error); }
    var ok := b.StoreReference(left);
    ok := b.StoreReference(right);
    var sum := cmp(leftSlice.value, rightSlice.value);
    if sum.Err? { return Err(sum.error); }
    ok := b.StoreSlice(sum.value);
    if !ok { return Err(CellOverflow); }
    assert b.refs == [left, right] + sum.value.refs;
    r := b.Build(sha);
  }

  method SplitAugEdgeCell(sha: CellHash.Sha, cmp: AugFn, data: Slice, part: seq<bool>, l: nat, key: seq<bool>, value: Slice)
    returns (r: Result<Cell, DictError>)
    requires l < |part| && l < |key| <= MAX_BIT_LEN
    ensures r == SplitAugEdge(cmp, data, part, l, key, value)
  {
    hide EdgeCell, AugFork;
    var n := |key| - l - 1;
    var oldToRight := part[l];
    var left := MakeEdge(sha, part[l + 1..], n, data);
    if left.Err? { return left; }
    var right := MakeEdge(sha, key[l + 1..], n, value);
    if right.Err? { return right; }
    if oldToRight { left, right := right, left; }
    r := MakeAugFork(sha, cmp, key[..l], |key|, left.value, right.value);
  }

  /** Rebuilds the path above a new edge, innermost segment first. */
  function AugPlug(cmp: AugFn, segments: seq<Segment>, leaf: Cell): Result<Cell, DictError> {
    if segments == [] then Ok(leaf)
    else
      var last := segments[|segments| - 1];
      if |last.data.refs| < 2 then Err(CellUnderflow)
      else
        match RebuildAugFork(cmp, last.data, last.keyBits, last.bit, leaf)
        case Err(e) => Err(e)
        case Ok(c) => AugPlug(cmp, segments[..|segments| - 1], c)
  }

  /** Segments of a path: forks whose label leaves some of their key bits. */
  predicate ForkPath(segments: seq<Segment>) {
    forall i :: 0 <= i < |segments| ==> ForkSegment(segments[i])
  }

  predicate ForkSegment(s: Segment) {
    |s.data.refs| >= 2 && s.keyBits <= MAX_BIT_LEN && (View(s.data, s.keyBits).Ok? ==> |View(s.data, s.keyBits).value.0| < s.keyBits)
  }

  method RebuildAugFromStack(sha: CellHash.Sha, cmp: AugFn, stack: seq<Segment>, start: Cell) returns (r: Result<Cell, DictError>)
    requires ForkPath(stack)
    ensures r == AugPlug(cmp, stack, start)
  {
    hide AugFork, ParseLabel;
    var segments, leaf := stack, start;
    while segments != []
      invariant segments <= stack && AugPlug(cmp, segments, leaf) == AugPlug(cmp, stack, start)
      decreases |segments|
    {
      var last := segments[|segments| - 1];
      assert ForkSegment(last);
      segments := segments[..|segments| - 1];
      if last.data.exotic { return Err(UnexpectedExoticCell); }
      var slice := new CellSlice(Slice(last.data.bits, last.data.refs));
      var part := ReadLabel(slice, last.keyBits);
      if part.Err? { return Err(part.error); }
      var left, right := if last.bit then last.data.refs[0] else leaf, if last.bit then leaf else last.data.refs[1];
      var built := MakeAugFork(sha, cmp, part.value, last.keyBits, left, right);
      if built.Err? { return built; }
      leaf := built.value;
    }
    r := Ok(leaf);
  }

  /** What a change at the end of the path means for the whole trie. */
  function AugPlugChange(cmp: AugFn, segments: seq<Segment>, r: Result<Option<Cell>, DictError>): Result<Option<Cell>, DictError> {
    match r
    case Err(e) => Err(e)
    case Ok(None) => Ok(None)
    case Ok(Some(leaf)) => Changed(AugPlug(cmp, segments, leaf))
  }

  lemma {:induction false} AugInsertStep(cmp: AugFn, segments: seq<Segment>, c: Cell, key: seq<bool>, value: Slice, mode: SetMode, l: nat)
    requires View(c, |key|).Ok? && l == CommonPrefix(key, View(c, |key|).value.0)
    requires l < |key| && l == |View(c, |key|).value.0| && |c.refs| >= 2
    ensures AugPlugChange(cmp, segments, AugInsert(cmp, c, key, value, mode)) ==
      AugPlugChange(cmp, segments + [Segment(c, key[l], |key|)], AugInsert(cmp, Child(c, key[l]), key[l + 1..], value, mode))
  {
    hide View, EdgeCell, SplitAugEdge, RebuildAugFork, CommonPrefix, BuildOrdinary;
    assert (segments + [Segment(c, key[l], |key|)])[..|segments|] == segments;
  }

  /** Walks down to the edge that has to change, then rebuilds the path with new combinations. */
  method AugInsertInto(sha: CellHash.Sha, cmp: AugFn, start: Cell, wholeKey: seq<bool>, value: Slice, mode: SetMode)
    returns (r: Result<Option<Cell>, DictError>)
    requires |wholeKey| <= MAX_BIT_LEN
    ensures r == AugInsert(cmp, start, wholeKey, value, mode)
  {
    hide EdgeCell, BuildOrdinary, ParseLabel, SplitAugEdge, RebuildAugFork;
    var data, key := start, wholeKey;
    var stack: seq<Segment> := [];
    var leaf;
    while true
      invariant |key| <= MAX_BIT_LEN && ForkPath(stack)
      invariant AugPlugChange(cmp, stack, AugInsert(cmp, data, key, value, mode)) == AugInsert(cmp, start, wholeKey, value, mode)
      decreases |key|
    {
      if data.exotic { return Err(UnexpectedExoticCell); }
      var remaining := new CellSlice(Slice(data.bits, data.refs));
      var part := ReadLabel(remaining, |key|);
      if part.Err? { return Err(part.error); }
      var l := CommonPrefix(key, part.value);
      if l == |key| {
        if !mode.CanReplace() { return Ok(None); }
        leaf := MakeEdge(sha, part.value, |key|, value);
        break;
      } else if l < |part.value| {
        if !mode.CanAdd() { return Ok(None); }
        leaf := SplitAugEdgeCell(sha, cmp, Slice(remaining.bits, remaining.refs), part.value, l, key, value);
        break;
      }
      if |data.refs| < 2 { return Err(CellUnderflow); }
      AugInsertStep(cmp, stack, data, key, value, mode, l);
      stack := stack + [Segment(data, key[l], |key|)];
      data, key := Child(data, key[l]), key[l + 1..];
    }
    if leaf.Err? { return Err(leaf.error); }
    var rebuilt := RebuildAugFromStack(sha, cmp, stack, leaf.value);
    r := if rebuilt.Ok? then Ok(Some(rebuilt.value)) else Err(rebuilt.error);
  }

  /** The same for a removal; `below` is the number of key bits left under the last segment. */
  function AugPlugRemoval(cmp: AugFn, segments: seq<Segment>, below: nat, r: Result<Removal, DictError>): Result<Removal, DictError> {
    match r
    case Err(e) => Err(e)
    case Ok(NotFound) => Ok(NotFound)
    case Ok(Left(leaf, v)) => Remaining(AugPlug(cmp, segments, leaf), v)
    case Ok(Gone(v)) =>
      if segments == [] then Ok(Gone(v))
      else
        var last := segments[|segments| - 1];
        if |last.data.refs| < 2 then Err(CellUnderflow)
        else
          match MergeEdges(last.data, last.keyBits, last.bit, below)
          case Err(e) => Err(e)
          case Ok(c) => Remaining(AugPlug(cmp, segments[..|segments| - 1], c), v)
  }

  lemma {:induction false} AugRemoveStep(cmp: AugFn, segments: seq<Segment>, c: Cell, key: seq<bool>, l: nat)
    requires View(c, |key|).Ok? && l == CommonPrefix(key, View(c, |key|).value.0)
    requires l < |key| && l == |View(c, |key|).value.0| && |c.refs| >= 2
    ensures AugPlugRemoval(cmp, segments, |key|, AugRemove(cmp, c, key)) ==
      AugPlugRemoval(cmp, segments + [Segment(c, key[l], |key|)], |key| - l - 1, AugRemove(cmp, Child(c, key[l]), key[l + 1..]))
  {
    hide View, MergeEdges, RebuildAugFork, CommonPrefix;
    assert (segments + [Segment(c, key[l], |key|)])[..|segments|] == segments;
  }

  /** Finds the leaf of a key, drops it, joins the edges around it and rebuilds the path with new combinations. */
  method AugRemoveFrom(sha: CellHash.Sha, cmp: AugFn, start: Cell, wholeKey: seq<bool>) returns (r: Result<Removal, DictError>)
    requires |wholeKey| <= MAX_BIT_LEN
    ensures r == AugRemove(cmp, start, wholeKey)
  {
    hide EdgeCell, BuildOrdinary, ParseLabel, MergeEdges, RebuildAugFork;
    var data, key := start, wholeKey;
    var stack: seq<Segment> := [];
    var removed: Slice;
    while true
      invariant |key| <= MAX_BIT_LEN && ForkPath(stack)
      invariant AugPlugRemoval(cmp, stack, |key|, AugRemove(cmp, data, key)) == AugRemove(cmp, start, wholeKey)
      decreases |key|
    {
      if data.exotic { return Err(UnexpectedExoticCell); }
      var remaining := new CellSlice(Slice(data.bits, data.refs));
      var part := ReadLabel(remaining, |key|);
      if part.Err? { return Err(part.error); }
      var l := CommonPrefix(key, part.value);
      if l == |key| {
        removed := Slice(remaining.bits, remaining.refs);
        break;
      } else if l < |part.value| {
        return Ok(NotFound);
      }
      if |data.refs| < 2 { return Err(CellUnderflow); }
      AugRemoveStep(cmp, stack, data, key, l);
      stack := stack + [Segment(data, key[l], |key|)];
      data, key := Child(data, key[l]), key[l + 1..];
    }
    if stack == [] { return Ok(Gone(removed)); }
    var last := stack[|stack| - 1];
    assert ForkSegment(last);
    var leaf := RebuildAsRemoved(sha, last, |key|);
    if leaf.Err? { return Err(leaf.error); }
    var rebuilt := RebuildAugFromStack(sha, cmp, stack[..|stack| - 1], leaf.value);
    r := if rebuilt.Ok? then Ok(Left(rebuilt.value, removed)) else Err(rebuilt.error);
  }

  // ---------------------------------------------------------------- the invariant

  /** A trie in which every fork holds exactly the combination of its branches. */
  predicate AugTrie(cmp: AugFn, c: Cell, n: nat)
    decreases c
  {
    && IsTrie(c, n)
    && var part := View(c, n).value.0;
       |part| < n ==>
         && AugTrie(cmp, c.refs[0], n - |part| - 1) && AugTrie(cmp, c.refs[1], n - |part| - 1)
         && Combined(cmp, c, n)
  }

  predicate Combined(cmp: AugFn, c: Cell, n: nat)
    requires IsTrie(c, n) && |View(c, n).value.0| < n
  {
    var below := n - |View(c, n).value.0| - 1;
    && Payload(c.refs[0], below).Ok? && Payload(c.refs[1], below).Ok?
    && cmp(Payload(c.refs[0], below).value, Payload(c.refs[1], below).value) == Payload(c, n)
  }

  lemma {:induction false} AugParts(cmp: AugFn, c: Cell, n: nat)
    requires AugTrie(cmp, c, n)
    ensures IsTrie(c, n) && View(c, n).Ok?
    ensures var part := View(c, n).value.0;
      |part| < n ==>
        |c.refs| >= 2 && AugTrie(cmp, c.refs[0], n - |part| - 1) && AugTrie(cmp, c.refs[1], n - |part| - 1)
  {
    hide ParseLabel, Combined;
  }

  lemma {:induction false} TriePayload(c: Cell, n: nat)
    requires IsTrie(c, n)
    ensures Payload(c, n).Ok?
  {
    hide ParseLabel;
  }

  /** A fork that was built is an augmented trie when its branches are. */
  lemma {:induction false} AugForkKeeps(cmp: AugFn, part: seq<bool>, n: nat, left: Cell, right: Cell)
    requires |part| < n <= MAX_BIT_LEN && AugFork(cmp, part, n, left, right).Ok?
    requires AugTrie(cmp, left, n - |part| - 1) && AugTrie(cmp, right, n - |part| - 1)
    ensures var d := AugFork(cmp, part, n, left, right).value;
      && AugTrie(cmp, d, n) && View(d, n).Ok? && View(d, n).value.0 == part
      && |d.refs| >= 2 && d.refs[0] == left && d.refs[1] == right
  {
    hide ParseLabel, EdgeCell, LabelCode;
    var below := n - |part| - 1;
    var sum := cmp(Payload(left, below).value, Payload(right, below).value).value;
    EdgeCellView(part, n, sum.bits, [left, right] + sum.refs);
    var d := AugFork(cmp, part, n, left, right).value;
    assert d.refs[2..] == sum.refs;
  }

  lemma {:induction false} LeafIsAug(cmp: AugFn, key: seq<bool>, value: Slice)
    requires |key| <= MAX_BIT_LEN && EdgeCell(key, |key|, value.bits, value.refs).Ok?
    ensures var d := EdgeCell(key, |key|, value.bits, value.refs).value;
      AugTrie(cmp, d, |key|) && View(d, |key|) == Ok((key, value.bits)) && d.refs == value.refs
  {
    hide ParseLabel, EdgeCell;
    EdgeCellView(key, |key|, value.bits, value.refs);
    LeafIsTrie(EdgeCell(key, |key|, value.bits, value.refs).value, key);
  }

  /** An edge with the first bits of its label cut off, or put back, carries the same. */
  lemma {:induction false} CutKeeps(cmp: AugFn, c: Cell, n: nat, d: Cell, pre: seq<bool>)
    requires CutEdge(c, n, d, pre) && IsTrie(c, n)
    ensures IsTrie(d, n - |pre|)
    ensures AugTrie(cmp, c, n) <==> AugTrie(cmp, d, n - |pre|)
    ensures Payload(c, n) == Payload(d, n - |pre|)
  {
    hide ParseLabel;
    CutIsTrie(c, n, d, pre);
  }

  lemma {:induction false} AugInsertCases(cmp: AugFn, c: Cell, key: seq<bool>, value: Slice, mode: SetMode)
    requires View(c, |key|).Ok?
    requires var l := CommonPrefix(key, View(c, |key|).value.0);
      l < |key| && l == |View(c, |key|).value.0| ==> |c.refs| >= 2
    ensures var (part, rest) := View(c, |key|).value; var l := CommonPrefix(key, part); var r := AugInsert(cmp, c, key, value, mode);
      && (l == |key| ==>
          r == if mode.CanReplace() then Changed(EdgeCell(part, |key|, value.bits, value.refs)) else Ok(None))
      && (l < |key| && l < |part| ==>
          r == if mode.CanAdd() then Changed(SplitAugEdge(cmp, Slice(rest, c.refs), part, l, key, value)) else Ok(None))
      && (l < |key| && l == |part| ==>
          var below := AugInsert(cmp, Child(c, key[l]), key[l + 1..], value, mode);
          r == if below.Ok? && below.value.Some? then Changed(RebuildAugFork(cmp, c, |key|, key[l], below.value.value)) else below)
  {
    hide View, EdgeCell, SplitAugEdge, RebuildAugFork, CommonPrefix;
  }

  /** The branches of a split edge: the old edge cut short, and the new leaf. */
  lemma {:induction false} SplitAugParts(cmp: AugFn, c: Cell, key: seq<bool>, value: Slice) returns (kept: Cell, leaf: Cell)
    requires AugTrie(cmp, c, |key|) && |key| <= MAX_BIT_LEN
    requires var (part, rest) := View(c, |key|).value; var l := CommonPrefix(key, part);
      l < |key| && l < |part| && SplitAugEdge(cmp, Slice(rest, c.refs), part, l, key, value).Ok?
    ensures var (part, rest) := View(c, |key|).value; var l := CommonPrefix(key, part); var n := |key| - l - 1;
      var fork := SplitAugEdge(cmp, Slice(rest, c.refs), part, l, key, value).value;
      && CutEdge(c, |key|, kept, part[..l + 1]) && View(leaf, n) == Ok((key[l + 1..], value.bits)) && leaf.refs == value.refs
      && IsTrie(leaf, n) && AugTrie(cmp, fork, |key|) && View(fork, |key|).value.0 == key[..l]
      && |fork.refs| >= 2 && Child(fork, part[l]) == kept && Child(fork, key[l]) == leaf
  {
    hide ParseLabel, LabelCode, BuildOrdinary, EdgeCell, AugFork;
    var (part, rest) := View(c, |key|).value;
    var l := CommonPrefix(key, part);
    var n := |key| - l - 1;
    kept := EdgeCell(part[l + 1..], n, rest, c.refs).value;
    leaf := EdgeCell(key[l + 1..], n, value.bits, value.refs).value;
    EdgeCellView(part[l + 1..], n, rest, c.refs);
    assert part[..l + 1] + part[l + 1..] == part;
    CutKeeps(cmp, c, |key|, kept, part[..l + 1]);
    LeafIsAug(cmp, key[l + 1..], value);
    if part[l] {
      AugForkKeeps(cmp, key[..l], |key|, leaf, kept);
    } else {
      AugForkKeeps(cmp, key[..l], |key|, kept, leaf);
    }
  }

  /** A rebuilt fork keeps the invariant and differs from the old one in one branch. */
  lemma {:induction false} RebuildAugKeeps(cmp: AugFn, c: Cell, n: nat, bit: bool, child: Cell)
    requires AugTrie(cmp, c, n) && n <= MAX_BIT_LEN && |View(c, n).value.0| < n
    requires AugTrie(cmp, child, n - |View(c, n).value.0| - 1) && RebuildAugFork(cmp, c, n, bit, child).Ok?
    ensures var d := RebuildAugFork(cmp, c, n, bit, child).value;
      AugTrie(cmp, d, n) && IsTrie(d, n) && ForkWith(c, n, d, bit, child)
  {
    hide ParseLabel, AugFork;
    var part := View(c, n).value.0;
    if bit { AugForkKeeps(cmp, part, n, c.refs[0], child); } else { AugForkKeeps(cmp, part, n, child, c.refs[1]); }
  }

  /** Insertion keeps every fork the combination of its branches and updates the map at one key. */
  lemma {:induction false} AugInsertMeaning(cmp: AugFn, c: Cell, key: seq<bool>, value: Slice, mode: SetMode, k: seq<bool>)
    requires AugTrie(cmp, c, |key|) && |k| == |key| <= MAX_BIT_LEN
    requires AugInsert(cmp, c, key, value, mode).Ok? && AugInsert(cmp, c, key, value, mode).value.Some?
    ensures var d := AugInsert(cmp, c, key, value, mode).value.value;
      AugTrie(cmp, d, |key|) && Lookup(d, k) == if k == key then Ok(Some(value)) else Lookup(c, k)
    decreases c
  {
    hide View, EdgeCell, SplitAugEdge, RebuildAugFork, Lookup, AugInsert, AugTrie, IsTrie, CommonPrefix;
    AugParts(cmp, c, |key|);
    WalkCases(c, key);
    AugInsertCases(cmp, c, key, value, mode);
    var (part, rest) := View(c, |key|).value;
    var l := CommonPrefix(key, part);
    var d := AugInsert(cmp, c, key, value, mode).value.value;
    if l == |key| {
      LeafIsAug(cmp, key, value);
      LeafLookup(d, key, k);
      if k != key { NotBelow(c, k); }
    } else if l < |part| {
      AugSplitMeaning(cmp, c, key, value, k);
    } else {
      var child := AugInsert(cmp, Child(c, key[l]), key[l + 1..], value, mode).value.value;
      var tail := if part <= k && k[l] == key[l] then k[l + 1..] else key[l + 1..];
      AugInsertMeaning(cmp, Child(c, key[l]), key[l + 1..], value, mode, tail);
      RebuildAugKeeps(cmp, c, |key|, key[l], child);
      ForkWithLookup(c, d, key[l], child, k);
      if part <= k && k[l] == key[l] {
        SplitKey(k, l);
        SplitKey(key, l);
      }
    }
  }

  /** What the three modes mean for an augmented trie. */
  lemma {:induction false} AugModeMeaning(cmp: AugFn, c: Cell, key: seq<bool>, value: Slice, mode: SetMode)
    requires AugTrie(cmp, c, |key|)
    ensures Lookup(c, key).Ok?
    ensures AugInsert(cmp, c, key, value, mode) == Ok(None) <==>
      || (mode == SetMode.Replace && Lookup(c, key).value.None?)
      || (mode == SetMode.Add && Lookup(c, key).value.Some?)
    decreases c
  {
    hide View, EdgeCell, SplitAugEdge, RebuildAugFork, Lookup, AugInsert, AugTrie;
    AugParts(cmp, c, |key|);
    LookupDefined(c, key);
    WalkCases(c, key);
    AugInsertCases(cmp, c, key, value, mode);
    var part := View(c, |key|).value.0;
    var l := CommonPrefix(key, part);
    if l == |key| {
      LeafHit(c, key);
    } else if l < |part| {
      NotBelow(c, key);
    } else {
      AugModeMeaning(cmp, Child(c, key[l]), key[l + 1..], value, mode);
      LookupStep(c, |key|, key[l], key[l + 1..]);
    }
  }

  lemma {:induction false} AugSplitMeaning(cmp: AugFn, c: Cell, key: seq<bool>, value: Slice, k: seq<bool>)
    requires AugTrie(cmp, c, |key|) && |k| == |key| <= MAX_BIT_LEN
    requires var (part, rest) := View(c, |key|).value; var l := CommonPrefix(key, part);
      l < |key| && l < |part| && SplitAugEdge(cmp, Slice(rest, c.refs), part, l, key, value).Ok?
    ensures var (part, rest) := View(c, |key|).value; var l := CommonPrefix(key, part);
      var d := SplitAugEdge(cmp, Slice(rest, c.refs), part, l, key, value).value;
      AugTrie(cmp, d, |key|) && Lookup(d, k) == if k == key then Ok(Some(value)) else Lookup(c, k)
  {
    hide View, SplitAugEdge, Lookup, CutEdge, Combined;
    var (part, rest) := View(c, |key|).value;
    var l := CommonPrefix(key, part);
    var fork := SplitAugEdge(cmp, Slice(rest, c.refs), part, l, key, value).value;
    var kept, leaf := SplitAugParts(cmp, c, key, value);
    SplitKey(key, l);
    SplitKey(k, l);
    if k[..l] != key[..l] {
      NotBelow(c, k);
      NotBelow(fork, k);
    } else {
      LookupStep(fork, |key|, k[l], k[l + 1..]);
      if k[l] == part[l] {
        assert k == part[..l + 1] + k[l + 1..];
        CutLookup(c, |key|, kept, part[..l + 1], k[l + 1..]);
      } else {
        LeafLookup(leaf, key[l + 1..], k[l + 1..]);
        NotBelow(c, k);
      }
    }
  }

  lemma {:induction false} AugRemoveCases(cmp: AugFn, c: Cell, key: seq<bool>)
    requires View(c, |key|).Ok?
    requires var l := CommonPrefix(key, View(c, |key|).value.0);
      l < |key| && l == |View(c, |key|).value.0| ==> |c.refs| >= 2
    ensures var (part, rest) := View(c, |key|).value; var l := CommonPrefix(key, part); var r := AugRemove(cmp, c, key);
      && (l == |key| ==> r == Ok(Gone(Slice(rest, c.refs))))
      && (l < |key| && l < |part| ==> r == Ok(NotFound))
      && (l < |key| && l == |part| ==>
          var below := AugRemove(cmp, Child(c, key[l]), key[l + 1..]);
          r ==
            if below.Err? || below.value.NotFound? then below
            else if below.value.Gone? then Remaining(MergeEdges(c, |key|, key[l], |key| - l - 1), below.value.value)
            else Remaining(RebuildAugFork(cmp, c, |key|, key[l], below.value.cell), below.value.value))
  {
    hide View, MergeEdges, RebuildAugFork, CommonPrefix;
  }

  /** Removal keeps every fork the combination of its branches and takes one key from the map. */
  lemma {:induction false} AugRemoveMeaning(cmp: AugFn, c: Cell, key: seq<bool>, k: seq<bool>)
    requires AugTrie(cmp, c, |key|) && |k| == |key| <= MAX_BIT_LEN && AugRemove(cmp, c, key).Ok?
    ensures var removal := AugRemove(cmp, c, key).value;
      && Lookup(c, key) == Ok(RemovedValue(removal))
      && (removal.Gone? && k != key ==> Lookup(c, k) == Ok(None))
      && (removal.Left? ==> AugTrie(cmp, removal.cell, |key|))
      && (removal.Left? ==> Lookup(removal.cell, k) == if k == key then Ok(None) else Lookup(c, k))
    decreases c
  {
    hide View, MergeEdges, RebuildAugFork, Lookup, AugRemove, AugTrie, IsTrie, CommonPrefix, CutEdge;
    AugParts(cmp, c, |key|);
    WalkCases(c, key);
    AugRemoveCases(cmp, c, key);
    var part := View(c, |key|).value.0;
    var l := CommonPrefix(key, part);
    if l == |key| {
      LeafHit(c, key);
      if k != key { NotBelow(c, k); }
    } else if l < |part| {
      NotBelow(c, key);
    } else {
      var below := AugRemove(cmp, Child(c, key[l]), key[l + 1..]).value;
      var onPath := part <= k && k[l] == key[l];
      AugRemoveMeaning(cmp, Child(c, key[l]), key[l + 1..], if onPath then k[l + 1..] else key[l + 1..]);
      LookupStep(c, |key|, key[l], key[l + 1..]);
      if onPath {
        assert k == part + [k[l]] + k[l + 1..];
        LookupStep(c, |k|, k[l], k[l + 1..]);
      }
      if below.Gone? {
        MergeCut(c, |key|, key[l]);
        MergeMeaning(c, key[l], k);
        CutKeeps(cmp, MergeEdges(c, |key|, key[l], |key| - l - 1).value, |key|, Child(c, !key[l]), part + [!key[l]]);
      } else if below.Left? {
        RebuildAugKeeps(cmp, c, |key|, key[l], below.cell);
        ForkWithLookup(c, RebuildAugFork(cmp, c, |key|, key[l], below.cell).value, key[l], below.cell, k);
      }
    }
  }
}
