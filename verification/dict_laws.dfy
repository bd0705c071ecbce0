/** What dictionary operations mean: they update a finite map and keep the trie canonical. */
module DictLaws {
  import opened Cells
  import opened Labels
  import opened CellIo
  import opened DictTrie
  import opened DictOps

  // ---------------------------------------------------------------- moving an edge under a shorter label

  /** `d` is the edge `c` with the first bits of its label cut off. */
  predicate CutEdge(c: Cell, n: nat, d: Cell, pre: seq<bool>) {
    && |pre| <= n
    && View(c, n).Ok? && View(d, n - |pre|).Ok?
    && View(c, n).value.0 == pre + View(d, n - |pre|).value.0
    && View(c, n).value.1 == View(d, n - |pre|).value.1
    && c.refs == d.refs
  }

  lemma {:induction false} PrefixShift(pre: seq<bool>, part: seq<bool>, key: seq<bool>)
    ensures part <= key <==> pre + part <= pre + key
    ensures part <= key && |part| < |key| ==>
      (pre + key)[|pre + part|] == key[|part|] && (pre + key)[|pre + part| + 1..] == key[|part| + 1..]
  {
    assert (pre + key)[|pre|..] == key;
    if pre + part <= pre + key {
      assert part == (pre + part)[|pre|..];
      assert part == (pre + key)[|pre|..|pre + part|];
    }
  }

  lemma {:induction false} CutLookup(c: Cell, n: nat, d: Cell, pre: seq<bool>, key: seq<bool>)
    requires CutEdge(c, n, d, pre) && |pre| + |key| == n && IsTrie(c, n)
    ensures Lookup(c, pre + key) == Lookup(d, key)
  {
    hide View, Lookup;
    var part := View(d, |key|).value.0;
    PrefixShift(pre, part, key);
    CutIsTrie(c, n, d, pre);
    if !(part <= key) {
      NotBelow(c, pre + key);
      NotBelow(d, key);
    } else if |part| == |key| {
      LeafHit(c, pre + key);
      LeafHit(d, key);
    } else {
      var bit, below := key[|part|], key[|part| + 1..];
      assert key == part + [bit] + below;
      assert pre + key == (pre + part) + [bit] + below;
      LookupStep(c, n, bit, below);
      LookupStep(d, |key|, bit, below);
    }
  }

  lemma {:induction false} LeafHit(c: Cell, key: seq<bool>)
    requires View(c, |key|).Ok? && View(c, |key|).value.0 == key
    ensures Lookup(c, key) == Ok(Some(Slice(View(c, |key|).value.1, c.refs)))
  {
    hide View;
  }

  lemma {:induction false} CutIsTrie(c: Cell, n: nat, d: Cell, pre: seq<bool>)
    requires CutEdge(c, n, d, pre) && IsTrie(c, n)
    ensures IsTrie(d, n - |pre|)
  {
    hide ParseLabel;
  }

  /** A longer key that agrees with the label's beginning. */
  lemma {:induction false} SplitKey(key: seq<bool>, l: nat)
    requires l < |key|
    ensures key == key[..l] + [key[l]] + key[l + 1..]
  {
  }

  // ---------------------------------------------------------------- splitting an edge

  /** The parts of a successful split: the two edges and the fork above them. */
  lemma {:induction false} SplitParts(data: Slice, part: seq<bool>, l: nat, key: seq<bool>, value: Slice)
    returns (kept: Cell, leaf: Cell)
    requires l < |part| <= |key| <= MAX_BIT_LEN && l < |key| && part[l] != key[l]
    requires SplitEdge(data, part, l, key, value).Ok?
    ensures var n := |key| - l - 1; var fork := SplitEdge(data, part, l, key, value).value;
      && EdgeCell(part[l + 1..], n, data.bits, data.refs) == Ok(kept)
      && View(kept, n) == Ok((part[l + 1..], data.bits)) && kept.refs == data.refs
      && EdgeCell(key[l + 1..], n, value.bits, value.refs) == Ok(leaf)
      && View(leaf, n) == Ok((key[l + 1..], value.bits)) && leaf.refs == value.refs
      && View(fork, |key|) == Ok((key[..l], [])) && |fork.refs| == 2
      && Child(fork, part[l]) == kept && Child(fork, key[l]) == leaf
      && EdgeCell(key[..l], |key|, [], fork.refs) == Ok(fork)
  {
    hide ParseLabel, LabelCode, BuildOrdinary;
    var n := |key| - l - 1;
    kept := EdgeCell(part[l + 1..], n, data.bits, data.refs).value;
    leaf := EdgeCell(key[l + 1..], n, value.bits, value.refs).value;
    EdgeCellView(part[l + 1..], n, data.bits, data.refs);
    EdgeCellView(key[l + 1..], n, value.bits, value.refs);
    EdgeCellView(key[..l], |key|, [], if part[l] then [leaf, kept] else [kept, leaf]);
  }

  lemma {:induction false} LeafIsTrie(leaf: Cell, key: seq<bool>)
    requires View(leaf, |key|).Ok? && View(leaf, |key|).value.0 == key
    ensures IsTrie(leaf, |key|)
    ensures Lookup(leaf, key) == Ok(Some(Slice(View(leaf, |key|).value.1, leaf.refs)))
  {
    hide ParseLabel;
  }

  lemma {:induction false} LeafLookup(leaf: Cell, key: seq<bool>, k: seq<bool>)
    requires View(leaf, |key|).Ok? && View(leaf, |key|).value.0 == key && |k| == |key|
    ensures Lookup(leaf, k) == Ok(if k == key then Some(Slice(View(leaf, |key|).value.1, leaf.refs)) else None)
  {
    hide ParseLabel;
    if key <= k { assert key == k; }
  }

  /** A key that does not start with the root label is not in the trie. */
  lemma {:induction false} NotBelow(c: Cell, k: seq<bool>)
    requires IsTrie(c, |k|) && !(View(c, |k|).value.0 <= k)
    ensures Lookup(c, k) == Ok(None)
  {
    hide ParseLabel;
  }

  ghost predicate SplitHere(c: Cell, key: seq<bool>, value: Slice) {
    && IsTrie(c, |key|) && |key| <= MAX_BIT_LEN
    && var (part, rest) := View(c, |key|).value; var l := CommonPrefix(key, part);
       l < |key| && l < |part| && SplitEdge(Slice(rest, c.refs), part, l, key, value).Ok?
  }

  ghost function SplitResult(c: Cell, key: seq<bool>, value: Slice): Cell
    requires SplitHere(c, key, value)
  {
    var (part, rest) := View(c, |key|).value;
    SplitEdge(Slice(rest, c.refs), part, CommonPrefix(key, part), key, value).value
  }

  /** The old edge under the new fork is the old trie with the common part cut off. */
  lemma {:induction false} SplitCut(c: Cell, key: seq<bool>, value: Slice) returns (kept: Cell, leaf: Cell)
    requires SplitHere(c, key, value)
    ensures var part := View(c, |key|).value.0; var l := CommonPrefix(key, part); var n := |key| - l - 1;
      var fork := SplitResult(c, key, value);
      && CutEdge(c, |key|, kept, part[..l + 1]) && IsTrie(kept, n) && IsTrie(leaf, n)
      && View(leaf, n) == Ok((key[l + 1..], value.bits)) && leaf.refs == value.refs
      && Child(fork, part[l]) == kept && Child(fork, key[l]) == leaf
      && View(fork, |key|) == Ok((key[..l], [])) && IsTrie(fork, |key|)
  {
    hide ParseLabel, LabelCode, BuildOrdinary, EdgeCell, SplitEdge;
    var (part, rest) := View(c, |key|).value;
    var l := CommonPrefix(key, part);
    kept, leaf := SplitParts(Slice(rest, c.refs), part, l, key, value);
    assert part[..l + 1] + part[l + 1..] == part;
    CutIsTrie(c, |key|, kept, part[..l + 1]);
    LeafIsTrie(leaf, key[l + 1..]);
    var fork := SplitResult(c, key, value);
    assert fork.refs[0] == Child(fork, false) && fork.refs[1] == Child(fork, true);
  }

  lemma {:induction false} SplitMeaning(c: Cell, key: seq<bool>, value: Slice, k: seq<bool>)
    requires SplitHere(c, key, value) && |k| == |key|
    ensures Lookup(SplitResult(c, key, value), k) == if k == key then Ok(Some(value)) else Lookup(c, k)
  {
    hide View, SplitEdge, SplitResult, Lookup, CutEdge;
    var part := View(c, |key|).value.0;
    var l := CommonPrefix(key, part);
    var fork := SplitResult(c, key, value);
    var kept, leaf := SplitCut(c, key, value);
    SplitKey(key, l);
    SplitKey(k, l);
    if k[..l] != key[..l] {
      NotBelow(c, k);
      NotBelow(fork, k);
    } else {
      LookupStep(fork, |key|, k[l], k[l + 1..]);
      if k[l] == part[l] {
        assert k == part[..l + 1] + k[l + 1..];
        CutLookup(c, |key|, kept, part[..l + 1], k[l + 1..]);
      } else {
        LeafLookup(leaf, key[l + 1..], k[l + 1..]);
        NotBelow(c, k);
      }
    }
  }

  // ---------------------------------------------------------------- rebuilding a fork

  /** `d` is a fork like `c` with the child behind `bit` exchanged; what follows the label may differ. */
  ghost predicate ForkWith(c: Cell, n: nat, d: Cell, bit: bool, child: Cell) {
    && |c.refs| >= 2 && |d.refs| >= 2
    && View(d, n).Ok? && View(c, n).Ok? && View(d, n).value.0 == View(c, n).value.0
    && Child(d, bit) == child && Child(d, !bit) == Child(c, !bit)
  }

  lemma {:induction false} RebuildView(c: Cell, n: nat, bit: bool, child: Cell)
    requires |c.refs| >= 2 && View(c, n).Ok? && RebuildFork(c, bit, child).Ok?
    ensures var d := RebuildFork(c, bit, child).value;
      && ForkWith(c, n, d, bit, child) && View(d, n) == View(c, n) && |d.refs| == 2
      && d.bits == c.bits && BuildOrdinary(d.bits, d.refs) == Ok(d)
  {
    hide ParseLabel;
  }

  lemma {:induction false} ForkWithIsTrie(c: Cell, n: nat, d: Cell, bit: bool, child: Cell)
    requires IsTrie(c, n) && |View(c, n).value.0| < n && ForkWith(c, n, d, bit, child)
    requires IsTrie(child, n - |View(c, n).value.0| - 1)
    ensures IsTrie(d, n)
  {
    hide View;
    assert d.refs[0] == Child(d, false) && d.refs[1] == Child(d, true);
    assert c.refs[0] == Child(c, false) && c.refs[1] == Child(c, true);
  }

  /** Exchanging a child changes only the keys that lead to it. */
  lemma {:induction false} ForkWithLookup(c: Cell, d: Cell, bit: bool, child: Cell, k: seq<bool>)
    requires IsTrie(c, |k|) && IsTrie(d, |k|) && |View(c, |k|).value.0| < |k| && ForkWith(c, |k|, d, bit, child)
    ensures var part := View(c, |k|).value.0; var l := |part|;
      Lookup(d, k) == if part <= k && k[l] == bit then Lookup(child, k[l + 1..]) else Lookup(c, k)
    ensures var part := View(c, |k|).value.0; var l := |part|;
      part <= k && k[l] == bit ==> Lookup(c, k) == Lookup(Child(c, bit), k[l + 1..])
  {
    hide View, Lookup;
    var part := View(c, |k|).value.0;
    var l := |part|;
    if part <= k {
      SplitKey(k, l);
      assert k == part + [k[l]] + k[l + 1..];
      LookupStep(c, |k|, k[l], k[l + 1..]);
      LookupStep(d, |k|, k[l], k[l + 1..]);
    } else {
      NotBelow(c, k);
      NotBelow(d, k);
    }
  }

  // ---------------------------------------------------------------- insertion

  /** Where a key ends in a trie: at a leaf, beside an edge, or below a fork. */
  lemma {:induction false} WalkCases(c: Cell, key: seq<bool>)
    requires IsTrie(c, |key|)
    ensures View(c, |key|).Ok? && |View(c, |key|).value.0| <= |key|
    ensures var part := View(c, |key|).value.0; var l := CommonPrefix(key, part);
      && !c.exotic && (l == |key| ==> part == key)
      && (l < |key| && l == |part| ==>
          && |c.refs| >= 2 && key == part + [key[l]] + key[l + 1..]
          && IsTrie(c.refs[0], |key| - l - 1) && IsTrie(c.refs[1], |key| - l - 1))
  {
    hide ParseLabel;
  }

  lemma {:induction false} InsertCases(c: Cell, key: seq<bool>, value: Slice, mode: SetMode)
    requires View(c, |key|).Ok?
    requires var l := CommonPrefix(key, View(c, |key|).value.0);
      l < |key| && l == |View(c, |key|).value.0| ==> |c.refs| >= 2
    ensures var (part, rest) := View(c, |key|).value; var l := CommonPrefix(key, part); var r := Insert(c, key, value, mode);
      && (l == |key| ==>
          r == if mode.CanReplace() then Changed(EdgeCell(part, |key|, value.bits, value.refs)) else Ok(None))
      && (l < |key| && l < |part| ==>
          r == if mode.CanAdd() then Changed(SplitEdge(Slice(rest, c.refs), part, l, key, value)) else Ok(None))
      && (l < |key| && l == |part| ==>
          var below := Insert(Child(c, key[l]), key[l + 1..], value, mode);
          r == if below.Ok? && below.value.Some? then Changed(RebuildFork(c, key[l], below.value.value)) else below)
  {
    hide View, EdgeCell, SplitEdge, RebuildFork, CommonPrefix;
  }

  /** A successful insertion updates the map at one key. */
  lemma {:induction false} InsertMeaning(c: Cell, key: seq<bool>, value: Slice, mode: SetMode, k: seq<bool>)
    requires IsTrie(c, |key|) && |k| == |key| <= MAX_BIT_LEN
    requires Insert(c, key, value, mode).Ok? && Insert(c, key, value, mode).value.Some?
    ensures var d := Insert(c, key, value, mode).value.value;
      IsTrie(d, |key|) && Lookup(d, k) == if k == key then Ok(Some(value)) else Lookup(c, k)
    decreases c
  {
    hide View, EdgeCell, SplitEdge, RebuildFork, Lookup, Insert, IsTrie, CommonPrefix, BuildOrdinary, LabelCode;
    WalkCases(c, key);
    InsertCases(c, key, value, mode);
    var (part, rest) := View(c, |key|).value;
    var l := CommonPrefix(key, part);
    var d := Insert(c, key, value, mode).value.value;
    if l == |key| {
      assert part == key;
      EdgeCellView(part, |key|, value.bits, value.refs);
      LeafIsTrie(d, key);
      LeafLookup(d, key, k);
      if k != key { NotBelow(c, k); }
    } else if l < |part| {
      var leaf;
      assert SplitHere(c, key, value) && d == SplitResult(c, key, value);
      var kept;
      kept, leaf := SplitCut(c, key, value);
      SplitMeaning(c, key, value, k);
    } else {
      var child := Insert(Child(c, key[l]), key[l + 1..], value, mode).value.value;
      RebuildView(c, |key|, key[l], child);
      var tail := if part <= k && k[l] == key[l] then k[l + 1..] else key[l + 1..];
      InsertMeaning(Child(c, key[l]), key[l + 1..], value, mode, tail);
      ForkWithIsTrie(c, |key|, d, key[l], child);
      ForkWithLookup(c, d, key[l], child, k);
      if part <= k && k[l] == key[l] {
        SplitKey(k, l);
        SplitKey(key, l);
      }
    }
  }

  /** A trie is left as it is exactly when the mode forbids the change. */
  lemma {:induction false} InsertRefused(c: Cell, key: seq<bool>, value: Slice, mode: SetMode)
    requires IsTrie(c, |key|)
    ensures Insert(c, key, value, mode) == Ok(None) <==>
      if Lookup(c, key) == Ok(None) then !mode.CanAdd() else !mode.CanReplace()
    decreases c
  {
    hide View, EdgeCell, SplitEdge, RebuildFork, Lookup, Insert;
    WalkCases(c, key);
    InsertCases(c, key, value, mode);
    var (part, rest) := View(c, |key|).value;
    var l := CommonPrefix(key, part);
    if l == |key| {
      assert part == key;
      LeafHit(c, key);
    } else if l < |part| {
      NotBelow(c, key);
    } else {
      InsertRefused(Child(c, key[l]), key[l + 1..], value, mode);
      assert key == part + [key[l]] + key[l + 1..];
      LookupStep(c, |key|, key[l], key[l + 1..]);
    }
  }

  /** `Set` always changes the trie, `Replace` only a key that is there, `Add` only a key that is not. */
  lemma {:induction false} ModeMeaning(c: Cell, key: seq<bool>, value: Slice)
    requires IsTrie(c, |key|)
    ensures Lookup(c, key).Ok?
    ensures Insert(c, key, value, SetMode.Set) != Ok(None)
    ensures Insert(c, key, value, SetMode.Replace) == Ok(None) <==> Lookup(c, key).value.None?
    ensures Insert(c, key, value, SetMode.Add) == Ok(None) <==> Lookup(c, key).value.Some?
  {
    hide Insert, Lookup;
    LookupDefined(c, key);
    InsertRefused(c, key, value, SetMode.Set);
    InsertRefused(c, key, value, SetMode.Replace);
    InsertRefused(c, key, value, SetMode.Add);
  }

  // ---------------------------------------------------------------- removal

  lemma {:induction false} RemoveCases(c: Cell, key: seq<bool>)
    requires View(c, |key|).Ok?
    requires var l := CommonPrefix(key, View(c, |key|).value.0);
      l < |key| && l == |View(c, |key|).value.0| ==> |c.refs| >= 2
    ensures var (part, rest) := View(c, |key|).value; var l := CommonPrefix(key, part); var r := Remove(c, key);
      && (l == |key| ==> r == Ok(Gone(Slice(rest, c.refs))))
      && (l < |key| && l < |part| ==> r == Ok(NotFound))
      && (l < |key| && l == |part| ==>
          var below := Remove(Child(c, key[l]), key[l + 1..]);
          r ==
            if below.Err? || below.value.NotFound? then below
            else if below.value.Gone? then Remaining(MergeEdges(c, |key|, key[l], |key| - l - 1), below.value.value)
            else Remaining(RebuildFork(c, key[l], below.value.cell), below.value.value))
  {
    hide View, MergeEdges, RebuildFork, CommonPrefix;
  }

  /** The merged edge is the sibling with the fork's label and the branch bit put back in front. */
  lemma {:induction false} MergeCut(c: Cell, n: nat, bit: bool)
    requires IsTrie(c, n) && n <= MAX_BIT_LEN && |View(c, n).value.0| < n
    requires MergeEdges(c, n, bit, n - |View(c, n).value.0| - 1).Ok?
    ensures var part := View(c, n).value.0; var d := MergeEdges(c, n, bit, n - |part| - 1).value;
      && CutEdge(d, n, Child(c, !bit), part + [!bit]) && IsTrie(d, n)
      && var (rem, rest) := View(Child(c, !bit), n - |part| - 1).value;
         EdgeCell(part + [!bit] + rem, n, rest, d.refs) == Ok(d)
  {
    hide ParseLabel, LabelCode, BuildOrdinary, EdgeCell;
    var part := View(c, n).value.0;
    var sibling := Child(c, !bit);
    var (rem, rest) := View(sibling, n - |part| - 1).value;
    EdgeCellView(part + [!bit] + rem, n, rest, sibling.refs);
  }

  lemma {:induction false} MergeMeaning(c: Cell, bit: bool, k: seq<bool>)
    requires IsTrie(c, |k|) && |k| <= MAX_BIT_LEN && |View(c, |k|).value.0| < |k|
    requires MergeEdges(c, |k|, bit, |k| - |View(c, |k|).value.0| - 1).Ok?
    ensures var part := View(c, |k|).value.0; var l := |part|; var d := MergeEdges(c, |k|, bit, |k| - l - 1).value;
      Lookup(d, k) == if part <= k && k[l] == bit then Ok(None) else Lookup(c, k)
  {
    hide View, MergeEdges, Lookup;
    var part := View(c, |k|).value.0;
    var l := |part|;
    var d := MergeEdges(c, |k|, bit, |k| - l - 1).value;
    MergeCut(c, |k|, bit);
    if part <= k && k[l] == !bit {
      assert k == part + [k[l]] + k[l + 1..];
      LookupStep(c, |k|, k[l], k[l + 1..]);
      CutLookup(d, |k|, Child(c, !bit), part + [!bit], k[l + 1..]);
    } else {
      assert (part + [!bit])[..l] == part;
      NotBelow(d, k);
      if !(part <= k) { NotBelow(c, k); }
    }
  }

  /** What a removal says about the trie it was asked of. */
  lemma {:induction false} RemoveMeaning(c: Cell, key: seq<bool>, k: seq<bool>)
    requires IsTrie(c, |key|) && |k| == |key| <= MAX_BIT_LEN && Remove(c, key).Ok?
    ensures var removal := Remove(c, key).value;
      && Lookup(c, key) == Ok(RemovedValue(removal))
      && (removal.Gone? && k != key ==> Lookup(c, k) == Ok(None))
      && (removal.Left? ==> IsTrie(removal.cell, |key|))
      && (removal.Left? ==> Lookup(removal.cell, k) == if k == key then Ok(None) else Lookup(c, k))
    decreases c
  {
    hide View, MergeEdges, RebuildFork, Lookup, Remove, IsTrie, CommonPrefix, CutEdge;
    WalkCases(c, key);
    RemoveCases(c, key);
    var (part, rest) := View(c, |key|).value;
    var l := CommonPrefix(key, part);
    if l == |key| {
      LeafHit(c, key);
      if k != key { NotBelow(c, k); }
    } else if l < |part| {
      NotBelow(c, key);
    } else {
      var below := Remove(Child(c, key[l]), key[l + 1..]).value;
      var onPath := part <= k && k[l] == key[l];
      RemoveMeaning(Child(c, key[l]), key[l + 1..], if onPath then k[l + 1..] else key[l + 1..]);
      LookupStep(c, |key|, key[l], key[l + 1..]);
      if onPath {
        assert k == part + [k[l]] + k[l + 1..];
        LookupStep(c, |k|, k[l], k[l + 1..]);
      }
      if below.Gone? {
        MergeCut(c, |key|, key[l]);
        MergeMeaning(c, key[l], k);
      } else if below.Left? {
        RebuildView(c, |key|, key[l], below.cell);
        var d := RebuildFork(c, key[l], below.cell).value;
        ForkWithIsTrie(c, |key|, d, key[l], below.cell);
        ForkWithLookup(c, d, key[l], below.cell, k);
      }
    }
  }
}
