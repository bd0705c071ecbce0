/** Exactly when insertion into and removal from a canonical trie succeed. */
module DictSuccess {
  import opened Cells
  import opened Labels
  import opened CellIo
  import opened DictTrie
  import opened DictOps
  import opened DictLaws
  import opened DictCanonical
  import CellHash
  import PruningInvariance

  // ---------------------------------------------------------------- heights

  /** The largest depth of a cell at any level. */
  function Height(c: Cell): nat {
    Max(Max(CellHash.DepthAt(c, 0), CellHash.DepthAt(c, 1)), Max(CellHash.DepthAt(c, 2), CellHash.DepthAt(c, 3)))
  }

  predicate LowerThan(refs: seq<Cell>, height: nat) {
    forall i :: 0 <= i < |refs| ==> Height(refs[i]) < height
  }

  lemma {:induction false} TallestAbove(depths: seq<nat>, bound: nat)
    ensures CellHash.Tallest(depths) <= bound <==> forall i :: 0 <= i < |depths| ==> depths[i] < bound
  {
    if depths != [] {
      var n := |depths| - 1;
      TallestAbove(depths[..n], bound);
      assert forall i :: 0 <= i < n ==> depths[i] == depths[..n][i];
    }
  }

  lemma {:induction false} OrdinaryDepth(bits: seq<bool>, refs: seq<Cell>, level: nat)
    ensures var c := OrdinaryCell(bits, refs);
      && CellHash.DepthAt(c, level) == CellHash.Tallest(CellHash.ChildDepths(c, level))
      && CellHash.ChildDepths(c, c.mask.Significant(level)) == CellHash.ChildDepths(c, level)
  {
    hide CellHash.DepthAt, CellHash.ChildDepths;
    var sha: CellHash.Sha := (_: seq<byte>) => CellHash.ZERO_DIGEST;
    PruningInvariance.DepthFollowsChildren(sha, OrdinaryCell(bits, refs), level);
  }

  /** An ordinary cell is one higher than its highest child. */
  lemma {:induction false} OrdinaryHeight(bits: seq<bool>, refs: seq<Cell>, bound: nat)
    ensures Height(OrdinaryCell(bits, refs)) <= bound <==> LowerThan(refs, bound)
  {
    hide CellHash.DepthAt;
    var c := OrdinaryCell(bits, refs);
    forall level: nat | level <= 3
      ensures CellHash.DepthAt(c, level) <= bound <==>
        forall i :: 0 <= i < |refs| ==> CellHash.DepthAt(refs[i], level) < bound
    {
      OrdinaryDepth(bits, refs, level);
      TallestAbove(CellHash.ChildDepths(c, level), bound);
      assert forall i :: 0 <= i < |refs| ==> CellHash.ChildDepths(c, level)[i] == CellHash.DepthAt(refs[i], level);
    }
  }

  lemma {:induction false} OrdinaryShallow(bits: seq<bool>, refs: seq<Cell>)
    ensures CellHash.Shallow(OrdinaryCell(bits, refs)) <==> LowerThan(refs, MAX_DEPTH)
  {
    hide CellHash.DepthAt, CellHash.ChildDepths, CellHash.AllShallow;
    var c := OrdinaryCell(bits, refs);
    LevelShallow(bits, refs, 0);
    LevelShallow(bits, refs, 1);
    LevelShallow(bits, refs, 2);
    LevelShallow(bits, refs, 3);
    if LowerThan(refs, MAX_DEPTH) {
      assert forall level: nat :: level <= 3 ==> CellHash.ShallowAt(c, level);
    }
  }

  lemma {:induction false} LevelShallow(bits: seq<bool>, refs: seq<Cell>, level: nat)
    requires level <= 3
    ensures var c := OrdinaryCell(bits, refs);
      && (CellHash.Shallow(c) ==> CellHash.ShallowAt(c, level))
      && (CellHash.ShallowAt(c, level) <==> forall i :: 0 <= i < |refs| ==> CellHash.DepthAt(refs[i], level) < MAX_DEPTH)
  {
    hide CellHash.DepthAt, CellHash.ChildDepths;
    var c := OrdinaryCell(bits, refs);
    OrdinaryDepth(bits, refs, level);
    DepthsOfChildren(c, level);
    var s := c.mask.Significant(level);
    if CellHash.Shallow(c) { assert CellHash.Computed(c, s) && CellHash.ShallowAt(c, s); }
  }

  lemma {:induction false} DepthsOfChildren(c: Cell, level: nat)
    ensures forall i :: 0 <= i < |c.refs| ==> CellHash.ChildDepths(c, level)[i] == CellHash.DepthAt(c.refs[i], level)
  {
    hide CellHash.DepthAt;
  }

  /** What a cell can be built from. */
  lemma {:induction false} BuildsIff(bits: seq<bool>, refs: seq<Cell>)
    ensures BuildOrdinary(bits, refs).Ok? <==>
      |bits| <= MAX_BIT_LEN && |refs| <= MAX_REF_COUNT && LowerThan(refs, MAX_DEPTH)
  {
    hide CellHash.Shallow, Height;
    OrdinaryShallow(bits, refs);
  }

  // ---------------------------------------------------------------- lengths of labels

  predicate EdgeFits(part: seq<bool>, n: nat, bits: seq<bool>) {
    LabelCode(part, n).Ok? && |LabelCode(part, n).value| + |bits| <= MAX_BIT_LEN
  }

  lemma {:induction false} BitLengthMonotone(m: nat, n: nat)
    requires m <= n
    ensures BitLength(m) <= BitLength(n)
  {
    BitLengthBound(n);
    BitLengthMax(m, BitLength(n));
  }

  /** A piece of a label, with fewer key bits left, takes no more space. */
  lemma {:induction false} PieceFits(part: seq<bool>, n: nat, bits: seq<bool>, low: nat, high: nat, m: nat)
    requires |part| <= n <= MAX_BIT_LEN && low <= high <= |part| && high - low <= m <= n
    requires EdgeFits(part, n, bits)
    ensures EdgeFits(part[low..high], m, bits)
  {
    var piece := part[low..high];
    BitLengthMonotone(m, n);
    KeyLengthBits(n);
    if Uniform(part).Some? && piece != [] {
      assert piece == Repeat(piece[0], |piece|);
    }
  }

  /** An edge can be built exactly when label and data fit and the references are few and low enough. */
  lemma {:induction false} EdgeIff(part: seq<bool>, n: nat, bits: seq<bool>, refs: seq<Cell>)
    ensures EdgeCell(part, n, bits, refs).Ok? <==>
      EdgeFits(part, n, bits) && |refs| <= MAX_REF_COUNT && LowerThan(refs, MAX_DEPTH)
    ensures EdgeCell(part, n, bits, refs).Ok? ==>
      var c := EdgeCell(part, n, bits, refs).value;
      c.refs == refs && forall bound: nat :: Height(c) <= bound <==> LowerThan(refs, bound)
  {
    hide LabelCode, Height, LowerThan;
    if LabelCode(part, n).Ok? {
      var bits' := LabelCode(part, n).value + bits;
      BuildsIff(bits', refs);
      forall bound: nat
        ensures Height(OrdinaryCell(bits', refs)) <= bound <==> LowerThan(refs, bound)
      {
        OrdinaryHeight(bits', refs, bound);
      }
    }
  }

  /** What holds of every edge in a canonical trie. */
  lemma {:induction false} CanonicalFits(c: Cell, n: nat)
    requires Canonical(c, n)
    ensures var (part, rest) := View(c, n).value;
      View(c, n).Ok? && |part| <= n <= MAX_BIT_LEN && EdgeFits(part, n, rest) && |c.refs| <= MAX_REF_COUNT
    ensures LowerThan(c.refs, MAX_DEPTH) && forall bound: nat :: Height(c) <= bound <==> LowerThan(c.refs, bound)
  {
    hide ParseLabel, LabelCode, BuildOrdinary, Height, LowerThan, EdgeFits, EdgeCell;
    CanonicalEdge(c, n);
    var (part, rest) := View(c, n).value;
    EdgeIff(part, n, rest, c.refs);
  }

  // ---------------------------------------------------------------- insertion

  /** The leaf that an insertion writes for a key. */
  function LeafOf(c: Cell, key: seq<bool>, value: Slice): Result<Cell, DictError>
    decreases c
  {
    match View(c, |key|)
    case Err(e) => Err(e)
    case Ok((part, _)) =>
      var l := CommonPrefix(key, part);
      if l == |key| then EdgeCell(part, |key|, value.bits, value.refs)
      else if l < |part| then EdgeCell(key[l + 1..], |key| - l - 1, value.bits, value.refs)
      else if |c.refs| < 2 then Err(CellUnderflow)
      else LeafOf(Child(c, key[l]), key[l + 1..], value)
  }

  /** The height that the changed path needs: every fork above the leaf adds one, a new fork lifts the old edge too. */
  function PathHeight(c: Cell, key: seq<bool>, leaf: Cell): nat
    decreases c
  {
    if View(c, |key|).Err? then 0
    else
      var part := View(c, |key|).value.0;
      var l := CommonPrefix(key, part);
      if l == |key| then Height(leaf)
      else if l < |part| then 1 + Max(Height(c), Height(leaf))
      else if |c.refs| < 2 then 0
      else 1 + PathHeight(Child(c, key[l]), key[l + 1..], leaf)
  }

  lemma {:induction false} LeafCases(c: Cell, key: seq<bool>, value: Slice)
    requires View(c, |key|).Ok?
    requires var l := CommonPrefix(key, View(c, |key|).value.0);
      l < |key| && l == |View(c, |key|).value.0| ==> |c.refs| >= 2
    ensures var part := View(c, |key|).value.0; var l := CommonPrefix(key, part); var r := LeafOf(c, key, value);
      && (l == |key| ==>
           r == EdgeCell(part, |key|, value.bits, value.refs) && (r.Ok? ==> PathHeight(c, key, r.value) == Height(r.value)))
      && (l < |key| && l < |part| ==>
           r == EdgeCell(key[l + 1..], |key| - l - 1, value.bits, value.refs)
           && (r.Ok? ==> PathHeight(c, key, r.value) == 1 + Max(Height(c), Height(r.value))))
      && (l < |key| && l == |part| ==>
           r == LeafOf(Child(c, key[l]), key[l + 1..], value)
           && (r.Ok? ==> PathHeight(c, key, r.value) == 1 + PathHeight(Child(c, key[l]), key[l + 1..], r.value)))
  {
    hide View, EdgeCell, CommonPrefix, Height;
  }

  /** Cutting an edge always leaves room for its rest, and the new fork is one higher than its branches. */
  lemma {:induction false} SplitSucceeds(c: Cell, key: seq<bool>, value: Slice)
    requires Canonical(c, |key|)
    requires var part := View(c, |key|).value.0; var l := CommonPrefix(key, part); l < |key| && l < |part|
    ensures var (part, rest) := View(c, |key|).value; var l := CommonPrefix(key, part);
      var r, leaf := SplitEdge(Slice(rest, c.refs), part, l, key, value), EdgeCell(key[l + 1..], |key| - l - 1, value.bits, value.refs);
      && (r.Ok? <==> leaf.Ok? && 1 + Max(Height(c), Height(leaf.value)) <= MAX_DEPTH)
      && (r.Ok? ==> leaf.Ok? && Height(r.value) == 1 + Max(Height(c), Height(leaf.value)))
  {
    hide View, EdgeCell, LabelCode, BuildOrdinary, Height, EdgeFits, LowerThan, Canonical, CommonPrefix;
    CanonicalFits(c, |key|);
    var (part, rest) := View(c, |key|).value;
    var l := CommonPrefix(key, part);
    var n := |key| - l - 1;
    var kept := KeptEdge(c, |key|, l + 1, n);
    var leaf := EdgeCell(key[l + 1..], n, value.bits, value.refs);
    EdgeIff(key[l + 1..], n, value.bits, value.refs);
    if leaf.Ok? {
      var refs := if part[l] then [leaf.value, kept] else [kept, leaf.value];
      FrontFits(c, |key|, l);
      ForkSucceeds(key[..l], |key|, refs[0], refs[1]);
      assert refs == [refs[0], refs[1]];
    }
  }

  /** The rest of a cut edge. */
  lemma {:induction false} KeptEdge(c: Cell, n: nat, low: nat, m: nat) returns (kept: Cell)
    requires Canonical(c, n) && low <= |View(c, n).value.0| && |View(c, n).value.0| - low <= m <= n
    ensures var (part, rest) := View(c, n).value;
      EdgeCell(part[low..], m, rest, c.refs) == Ok(kept) && Height(kept) == Height(c) && Height(c) <= MAX_DEPTH
  {
    hide View, EdgeCell, LabelCode, BuildOrdinary, Height, EdgeFits;
    CanonicalFits(c, n);
    var (part, rest) := View(c, n).value;
    PieceFits(part, n, rest, low, |part|, m);
    assert part[low..|part|] == part[low..];
    EdgeIff(part[low..], m, rest, c.refs);
    kept := EdgeCell(part[low..], m, rest, c.refs).value;
    SameHeight(kept, c);
  }

  lemma {:induction false} ForkSucceeds(part: seq<bool>, n: nat, a: Cell, b: Cell)
    requires EdgeFits(part, n, [])
    ensures var r := EdgeCell(part, n, [], [a, b]);
      && (r.Ok? <==> 1 + Max(Height(a), Height(b)) <= MAX_DEPTH)
      && (r.Ok? ==> Height(r.value) == 1 + Max(Height(a), Height(b)))
  {
    hide EdgeCell, LabelCode, Height, EdgeFits;
    EdgeIff(part, n, [], [a, b]);
    var r := EdgeCell(part, n, [], [a, b]);
    if r.Ok? { BothBelow(r.value, a, b); }
    assert LowerThan([a, b], MAX_DEPTH) <==> Height([a, b][0]) < MAX_DEPTH && Height([a, b][1]) < MAX_DEPTH;
  }

  lemma {:induction false} FrontFits(c: Cell, n: nat, l: nat)
    requires Canonical(c, n) && l <= |View(c, n).value.0|
    ensures EdgeFits(View(c, n).value.0[..l], n, [])
  {
    hide View, LabelCode, BuildOrdinary, Height, EdgeFits;
    CanonicalFits(c, n);
    var (part, rest) := View(c, n).value;
    FewerFit(part, n, rest);
    PieceFits(part, n, [], 0, l, n);
    assert part[0..l] == part[..l];
  }

  lemma {:induction false} FewerFit(part: seq<bool>, n: nat, bits: seq<bool>)
    requires EdgeFits(part, n, bits)
    ensures EdgeFits(part, n, [])
  {
  }

  lemma {:induction false} SameHeight(a: Cell, b: Cell)
    requires forall bound: nat :: Height(a) <= bound <==> LowerThan(a.refs, bound)
    requires forall bound: nat :: Height(b) <= bound <==> LowerThan(b.refs, bound)
    requires a.refs == b.refs
    ensures Height(a) == Height(b)
  {
    hide Height, LowerThan;
    assert LowerThan(a.refs, Height(a)) && LowerThan(b.refs, Height(b));
  }

  lemma {:induction false} BothBelow(fork: Cell, a: Cell, b: Cell)
    requires fork.refs == [a, b] && forall bound: nat :: Height(fork) <= bound <==> LowerThan(fork.refs, bound)
    ensures Height(fork) == 1 + Max(Height(a), Height(b))
  {
    hide Height;
    assert LowerThan(fork.refs, 1 + Max(Height(a), Height(b))) && LowerThan(fork.refs, Height(fork));
    assert Height(fork.refs[0]) < Height(fork) && Height(fork.refs[1]) < Height(fork);
  }

  /** A fork can be rebuilt exactly when its new branch is low enough. */
  lemma {:induction false} RebuildSucceeds(c: Cell, n: nat, bit: bool, child: Cell)
    requires Canonical(c, n) && |View(c, n).value.0| < n
    ensures RebuildFork(c, bit, child).Ok? <==> Height(child) < MAX_DEPTH
    ensures RebuildFork(c, bit, child).Ok? ==>
      Height(RebuildFork(c, bit, child).value) == 1 + Max(Height(child), Height(Child(c, !bit)))
    ensures Height(c) == 1 + Max(Height(Child(c, bit)), Height(Child(c, !bit))) && Height(c) <= MAX_DEPTH
  {
    hide View, LabelCode, BuildOrdinary, Height;
    CanonicalFits(c, n);
    ForkRefs(c, n);
    BothBelow(c, c.refs[0], c.refs[1]);
    assert Height(c.refs[0]) < MAX_DEPTH && Height(c.refs[1]) < MAX_DEPTH;
    var refs := if bit then [c.refs[0], child] else [child, c.refs[1]];
    BuildsIff(c.bits, refs);
    BuiltIs(c.bits, refs);
    var d := OrdinaryCell(c.bits, refs);
    forall bound: nat
      ensures Height(d) <= bound <==> LowerThan(d.refs, bound)
    {
      OrdinaryHeight(c.bits, refs, bound);
    }
    BothBelow(d, refs[0], refs[1]);
  }

  lemma {:induction false} ForkRefs(c: Cell, n: nat)
    requires Canonical(c, n) && |View(c, n).value.0| < n
    ensures |c.refs| == 2 && c.refs == [c.refs[0], c.refs[1]] && |c.bits| <= MAX_BIT_LEN
  {
    hide ParseLabel, LabelCode, CellHash.Shallow;
  }

  lemma {:induction false} BuiltIs(bits: seq<bool>, refs: seq<Cell>)
    ensures BuildOrdinary(bits, refs).Ok? ==> BuildOrdinary(bits, refs).value == OrdinaryCell(bits, refs)
  {
    hide CellHash.Shallow;
  }

  /** An insertion that the mode permits succeeds exactly when the leaf can be written and the path does not get too high. */
  lemma {:induction false} InsertSucceeds(c: Cell, key: seq<bool>, value: Slice, mode: SetMode)
    requires Canonical(c, |key|) && Insert(c, key, value, mode) != Ok(None)
    ensures Insert(c, key, value, mode).Ok? <==>
      LeafOf(c, key, value).Ok? && PathHeight(c, key, LeafOf(c, key, value).value) <= MAX_DEPTH
    ensures Insert(c, key, value, mode).Ok? ==>
      var d, h := Insert(c, key, value, mode).value.value, PathHeight(c, key, LeafOf(c, key, value).value);
      h <= Height(d) <= Max(Height(c), h)
    decreases c
  {
    hide View, EdgeCell, SplitEdge, RebuildFork, Insert, LabelCode, BuildOrdinary, Height, EdgeFits, LowerThan;
    CanonicalIsTrie(c, |key|);
    WalkCases(c, key);
    InsertCases(c, key, value, mode);
    CanonicalFits(c, |key|);
    var (part, rest) := View(c, |key|).value;
    var l := CommonPrefix(key, part);
    LeafCases(c, key, value);
    if l == |key| {
      EdgeIff(part, |key|, value.bits, value.refs);
    } else if l < |part| {
      SplitSucceeds(c, key, value);
    } else {
      InsertSucceeds(Child(c, key[l]), key[l + 1..], value, mode);
      var below := Insert(Child(c, key[l]), key[l + 1..], value, mode);
      if below.Ok? { RebuildSucceeds(c, |key|, key[l], below.value.value); }
    }
  }

  // ---------------------------------------------------------------- removal

  /** The edge that a removal joins can be written: the label of the fork, a bit, and what is left below. */
  predicate JoinFits(c: Cell, key: seq<bool>)
    decreases c
  {
    if View(c, |key|).Err? || |c.refs| < 2 then true
    else
      var part := View(c, |key|).value.0;
      var l := CommonPrefix(key, part);
      if l == |key| || l < |part| then true
      else
        var n := |key| - l - 1;
        var child, sibling := View(Child(c, key[l]), n), View(Child(c, !key[l]), n);
        if child.Ok? && child.value.0 == key[l + 1..] then
          sibling.Ok? && EdgeFits(part + [!key[l]] + sibling.value.0, |key|, sibling.value.1)
        else JoinFits(Child(c, key[l]), key[l + 1..])
  }

  lemma {:induction false} JoinCases(c: Cell, key: seq<bool>)
    requires Canonical(c, |key|)
    ensures var part := View(c, |key|).value.0; var l := CommonPrefix(key, part);
      && (l == |key| || l < |part| ==> JoinFits(c, key))
      && (l < |key| && l == |part| ==>
           var n := |key| - l - 1;
           var child, sibling := View(Child(c, key[l]), n), View(Child(c, !key[l]), n);
           && child.Ok? && sibling.Ok?
           && JoinFits(c, key) ==
                if child.value.0 == key[l + 1..] then EdgeFits(part + [!key[l]] + sibling.value.0, |key|, sibling.value.1)
                else JoinFits(Child(c, key[l]), key[l + 1..]))
  {
    hide ParseLabel, LabelCode, BuildOrdinary, EdgeFits;
    CanonicalIsTrie(c, |key|);
    WalkCases(c, key);
  }

  /** A removal from a canonical trie fails exactly when the joined edge does not fit, and never makes the trie higher. */
  lemma {:induction false} RemoveSucceeds(c: Cell, key: seq<bool>)
    requires Canonical(c, |key|)
    ensures Remove(c, key).Ok? <==> JoinFits(c, key)
    ensures Remove(c, key).Ok? && Remove(c, key).value.Left? ==> Height(Remove(c, key).value.cell) <= Height(c)
    decreases c
  {
    hide View, EdgeCell, MergeEdges, RebuildFork, Remove, LabelCode, BuildOrdinary, Height, EdgeFits, LowerThan, JoinFits;
    CanonicalIsTrie(c, |key|);
    WalkCases(c, key);
    RemoveCases(c, key);
    JoinCases(c, key);
    var part := View(c, |key|).value.0;
    var l := CommonPrefix(key, part);
    if l < |key| && l == |part| {
      var child, n := Child(c, key[l]), |key| - l - 1;
      CanonicalBelow(c, |key|);
      var below := Remove(child, key[l + 1..]);
      GoneIff(child, key[l + 1..]);
      if below.Ok? && below.value.Gone? {
        MergeSucceeds(c, |key|, key[l]);
      } else {
        RemoveSucceeds(child, key[l + 1..]);
        RebuildSucceeds(c, |key|, key[l], child);
        if below.Ok? && below.value.Left? { RebuildSucceeds(c, |key|, key[l], below.value.cell); }
      }
    }
  }

  lemma {:induction false} CanonicalBelow(c: Cell, n: nat)
    requires Canonical(c, n) && |View(c, n).value.0| < n
    ensures |c.refs| == 2 && forall bit: bool :: Canonical(Child(c, bit), n - |View(c, n).value.0| - 1)
  {
    hide ParseLabel, LabelCode, BuildOrdinary;
  }

  /** Nothing is left of an edge exactly when its label is the whole key. */
  lemma {:induction false} GoneIff(c: Cell, key: seq<bool>)
    requires Canonical(c, |key|)
    ensures Remove(c, key).Ok? && Remove(c, key).value.Gone? <==> View(c, |key|).value.0 == key
  {
    hide View, MergeEdges, RebuildFork, Remove, LabelCode, BuildOrdinary;
    CanonicalIsTrie(c, |key|);
    WalkCases(c, key);
    RemoveCases(c, key);
  }

  lemma {:induction false} MergeSucceeds(c: Cell, n: nat, bit: bool)
    requires Canonical(c, n) && |View(c, n).value.0| < n
    ensures var part := View(c, n).value.0; var below := n - |part| - 1; var sibling := View(Child(c, !bit), below);
      var r := MergeEdges(c, n, bit, below);
      && sibling.Ok?
      && (r.Ok? <==> EdgeFits(part + [!bit] + sibling.value.0, n, sibling.value.1))
      && (r.Ok? ==> Height(r.value) <= Height(c))
  {
    hide LabelCode, BuildOrdinary, Height, EdgeFits, EdgeCell, ParseLabel;
    CanonicalBelow(c, n);
    RebuildSucceeds(c, n, bit, Child(c, bit));
    var part := View(c, n).value.0;
    var sibling, below := Child(c, !bit), n - |part| - 1;
    CanonicalFits(c, n);
    CanonicalFits(sibling, below);
    var (rem, rest) := View(sibling, below).value;
    EdgeIff(part + [!bit] + rem, n, rest, sibling.refs);
    var r := EdgeCell(part + [!bit] + rem, n, rest, sibling.refs);
    if r.Ok? { SameHeight(r.value, sibling); }
  }
}
