/** Operations keep tries canonical, so a dictionary's root depends on its contents alone. */
module DictCanonical {
  import opened Cells
  import opened Labels
  import opened CellIo
  import opened DictTrie
  import opened DictOps
  import opened DictLaws

  lemma {:induction false} EdgeCanonical(part: seq<bool>, n: nat, rest: seq<bool>, refs: seq<Cell>)
    requires |part| <= n <= MAX_BIT_LEN && EdgeCell(part, n, rest, refs).Ok?
    requires |part| < n ==>
      rest == [] && |refs| == 2 && Canonical(refs[0], n - |part| - 1) && Canonical(refs[1], n - |part| - 1)
    ensures Canonical(EdgeCell(part, n, rest, refs).value, n)
  {
    hide ParseLabel, LabelCode, BuildOrdinary;
    EdgeCellView(part, n, rest, refs);
  }

  lemma {:induction false} RebuildCanonical(c: Cell, n: nat, bit: bool, child: Cell)
    requires Canonical(c, n) && |View(c, n).value.0| < n && RebuildFork(c, bit, child).Ok?
    requires Canonical(child, n - |View(c, n).value.0| - 1)
    ensures Canonical(RebuildFork(c, bit, child).value, n)
  {
    hide ParseLabel, LabelCode;
    CanonicalIsTrie(c, n);
    RebuildView(c, n, bit, child);
    var d := RebuildFork(c, bit, child).value;
    assert d.refs[0] == Child(d, false) && d.refs[1] == Child(d, true);
  }

  /** A canonical edge is what its own label and contents build. */
  lemma {:induction false} CanonicalEdge(c: Cell, n: nat)
    requires Canonical(c, n)
    ensures View(c, n).Ok? && EdgeCell(View(c, n).value.0, n, View(c, n).value.1, c.refs) == Ok(c)
  {
    hide ParseLabel, LabelCode, BuildOrdinary;
  }

  lemma {:induction false} InsertCanonical(c: Cell, key: seq<bool>, value: Slice, mode: SetMode)
    requires Canonical(c, |key|) && Insert(c, key, value, mode).Ok? && Insert(c, key, value, mode).value.Some?
    ensures Canonical(Insert(c, key, value, mode).value.value, |key|)
    decreases c
  {
    hide View, EdgeCell, SplitEdge, RebuildFork, Lookup, Insert, LabelCode, BuildOrdinary;
    CanonicalIsTrie(c, |key|);
    WalkCases(c, key);
    InsertCases(c, key, value, mode);
    var (part, rest) := View(c, |key|).value;
    var l := CommonPrefix(key, part);
    if l == |key| {
      EdgeCanonical(key, |key|, value.bits, value.refs);
    } else if l < |part| {
      SplitCanonical(c, key, value);
    } else {
      InsertCanonical(Child(c, key[l]), key[l + 1..], value, mode);
      RebuildCanonical(c, |key|, key[l], Insert(Child(c, key[l]), key[l + 1..], value, mode).value.value);
    }
  }

  lemma {:induction false} SplitCanonical(c: Cell, key: seq<bool>, value: Slice)
    requires Canonical(c, |key|) && SplitHere(c, key, value)
    ensures Canonical(SplitResult(c, key, value), |key|)
  {
    hide View, EdgeCell, LabelCode, BuildOrdinary;
    var (part, rest) := View(c, |key|).value;
    var l := CommonPrefix(key, part);
    var n := |key| - l - 1;
    var kept, leaf := SplitParts(Slice(rest, c.refs), part, l, key, value);
    EdgeCanonical(part[l + 1..], n, rest, c.refs);
    EdgeCanonical(key[l + 1..], n, value.bits, value.refs);
    var fork := SplitResult(c, key, value);
    assert fork.refs[0] == Child(fork, false) && fork.refs[1] == Child(fork, true);
    EdgeCanonical(key[..l], |key|, [], fork.refs);
  }

  lemma {:induction false} RemoveCanonical(c: Cell, key: seq<bool>)
    requires Canonical(c, |key|) && Remove(c, key).Ok? && Remove(c, key).value.Left?
    ensures Canonical(Remove(c, key).value.cell, |key|)
    decreases c
  {
    hide View, EdgeCell, MergeEdges, RebuildFork, Lookup, Remove, LabelCode, BuildOrdinary;
    CanonicalIsTrie(c, |key|);
    WalkCases(c, key);
    RemoveCases(c, key);
    var part := View(c, |key|).value.0;
    var l := CommonPrefix(key, part);
    var below := Remove(Child(c, key[l]), key[l + 1..]).value;
    if below.Gone? {
      MergeCanonical(c, |key|, key[l]);
    } else {
      RemoveCanonical(Child(c, key[l]), key[l + 1..]);
      RebuildCanonical(c, |key|, key[l], below.cell);
    }
  }

  lemma {:induction false} MergeCanonical(c: Cell, n: nat, bit: bool)
    requires Canonical(c, n) && |View(c, n).value.0| < n
    requires MergeEdges(c, n, bit, n - |View(c, n).value.0| - 1).Ok?
    ensures Canonical(MergeEdges(c, n, bit, n - |View(c, n).value.0| - 1).value, n)
  {
    hide View, EdgeCell, LabelCode, BuildOrdinary;
    CanonicalIsTrie(c, n);
    MergeCut(c, n, bit);
    var part := View(c, n).value.0;
    var (rem, rest) := View(Child(c, !bit), n - |part| - 1).value;
    EdgeCanonical(part + [!bit] + rem, n, rest, Child(c, !bit).refs);
  }

  // ---------------------------------------------------------------- undoing an insertion

  lemma {:induction false} CommonPrefixOf(a: seq<bool>, b: seq<bool>)
    requires b <= a
    ensures CommonPrefix(a, b) == |b|
  {
  }

  /** Removing a key that was just added gives back the very same root. */
  lemma {:induction false} InsertThenRemove(c: Cell, key: seq<bool>, value: Slice, mode: SetMode)
    requires Canonical(c, |key|) && Lookup(c, key) == Ok(None)
    requires Insert(c, key, value, mode).Ok? && Insert(c, key, value, mode).value.Some?
    ensures Remove(Insert(c, key, value, mode).value.value, key) == Ok(Left(c, value))
    decreases c
  {
    hide View, EdgeCell, SplitEdge, MergeEdges, RebuildFork, Lookup, Insert, Remove, LabelCode, BuildOrdinary;
    CanonicalIsTrie(c, |key|);
    WalkCases(c, key);
    InsertCases(c, key, value, mode);
    var (part, rest) := View(c, |key|).value;
    var l := CommonPrefix(key, part);
    if l == |key| {
      LeafHit(c, key);
      assert false;
    } else if l < |part| {
      SplitThenRemove(c, key, value);
    } else {
      var child := Child(c, key[l]);
      var grown := Insert(child, key[l + 1..], value, mode).value.value;
      LookupStep(c, |key|, key[l], key[l + 1..]);
      InsertThenRemove(child, key[l + 1..], value, mode);
      RebuildView(c, |key|, key[l], grown);
      var d := RebuildFork(c, key[l], grown).value;
      RemoveCases(d, key);
      RebuildBack(c, |key|, key[l], grown);
    }
  }

  lemma {:induction false} RebuildBack(c: Cell, n: nat, bit: bool, grown: Cell)
    requires Canonical(c, n) && |View(c, n).value.0| < n && RebuildFork(c, bit, grown).Ok?
    ensures |RebuildFork(c, bit, grown).value.refs| == 2
    ensures RebuildFork(RebuildFork(c, bit, grown).value, bit, Child(c, bit)) == Ok(c)
  {
    hide ParseLabel, LabelCode;
    var d := RebuildFork(c, bit, grown).value;
    assert (if bit then [d.refs[0], Child(c, bit)] else [Child(c, bit), d.refs[1]]) == c.refs;
  }

  lemma {:induction false} SplitThenRemove(c: Cell, key: seq<bool>, value: Slice)
    requires Canonical(c, |key|) && SplitHere(c, key, value)
    ensures Remove(SplitResult(c, key, value), key) == Ok(Left(c, value))
  {
    hide View, EdgeCell, Remove, LabelCode, BuildOrdinary;
    var (part, rest) := View(c, |key|).value;
    var l := CommonPrefix(key, part);
    var n := |key| - l - 1;
    var kept, leaf := SplitParts(Slice(rest, c.refs), part, l, key, value);
    var fork := SplitResult(c, key, value);
    CommonPrefixOf(key, key[..l]);
    CommonPrefixOf(key[l + 1..], key[l + 1..]);
    RemoveCases(fork, key);
    RemoveCases(leaf, key[l + 1..]);
    MergeBack(c, key, value, fork, kept);
  }

  lemma {:induction false} MergeBack(c: Cell, key: seq<bool>, value: Slice, fork: Cell, kept: Cell)
    requires Canonical(c, |key|)
    requires var (part, rest) := View(c, |key|).value; var l := CommonPrefix(key, part);
      && l < |key| && l < |part|
      && View(fork, |key|) == Ok((key[..l], [])) && |fork.refs| == 2 && Child(fork, part[l]) == kept
      && View(kept, |key| - l - 1) == Ok((part[l + 1..], rest)) && kept.refs == c.refs
    ensures var l := CommonPrefix(key, View(c, |key|).value.0);
      MergeEdges(fork, |key|, key[l], |key| - l - 1) == Ok(c)
  {
    hide ParseLabel, EdgeCell, LabelCode, BuildOrdinary;
    var part := View(c, |key|).value.0;
    var l := CommonPrefix(key, part);
    CanonicalEdge(c, |key|);
    assert part == key[..l] + [!key[l]] + part[l + 1..];
  }

  // ---------------------------------------------------------------- whole runs

  datatype Op = Store(key: seq<bool>, value: Slice) | Delete(key: seq<bool>)

  /** One operation of a dictionary with keys of `n` bits. */
  function Step(n: nat, root: Option<Cell>, op: Op): Result<Option<Cell>, DictError> {
    match op
    case Store(key, value) => SetOutcome(root, n, key, value, SetMode.Set)
    case Delete(key) =>
      var outcome := RemoveOutcome(root, n, key);
      if outcome.Err? then Err(outcome.error) else Ok(RemainingRoot(root, outcome.value))
  }

  function Run(n: nat, root: Option<Cell>, ops: seq<Op>): Result<Option<Cell>, DictError>
    decreases |ops|
  {
    if ops == [] then Ok(root)
    else
      var next := Step(n, root, ops[0]);
      if next.Err? then next else Run(n, next.value, ops[1..])
  }

  /** The same operations on a finite map. */
  function MapStep(m: map<seq<bool>, Slice>, op: Op): map<seq<bool>, Slice> {
    match op
    case Store(key, value) => m[key := value]
    case Delete(key) => m - {key}
  }

  function MapRun(m: map<seq<bool>, Slice>, ops: seq<Op>): map<seq<bool>, Slice>
    decreases |ops|
  {
    if ops == [] then m else MapRun(MapStep(m, ops[0]), ops[1..])
  }

  function Find(m: map<seq<bool>, Slice>, key: seq<bool>): Option<Slice> {
    if key in m then Some(m[key]) else None
  }

  /** The root is canonical and holds exactly the entries of the map. */
  ghost predicate Represents(n: nat, root: Option<Cell>, m: map<seq<bool>, Slice>) {
    && (forall key :: key in m ==> |key| == n)
    && (root.None? ==> m == map[])
    && (root.Some? ==> Canonical(root.value, n) && forall key: seq<bool> :: |key| == n ==> Lookup(root.value, key) == Ok(Find(m, key)))
  }

  lemma {:induction false} StoreRepresents(n: nat, root: Option<Cell>, m: map<seq<bool>, Slice>, key: seq<bool>, value: Slice)
    requires n <= MAX_BIT_LEN && Represents(n, root, m) && SetOutcome(root, n, key, value, SetMode.Set).Ok?
    ensures var outcome := SetOutcome(root, n, key, value, SetMode.Set).value;
      outcome.Some? && Represents(n, outcome, m[key := value])
  {
    hide View, EdgeCell, Lookup, Insert, LabelCode, BuildOrdinary;
    if root.Some? {
      var c := root.value;
      CanonicalIsTrie(c, n);
      InsertRefused(c, key, value, SetMode.Set);
      InsertCanonical(c, key, value, SetMode.Set);
      forall k: seq<bool> | |k| == n
        ensures Lookup(SetOutcome(root, n, key, value, SetMode.Set).value.value, k) == Ok(Find(m[key := value], k))
      {
        InsertMeaning(c, key, value, SetMode.Set, k);
      }
    } else {
      EdgeCellView(key, n, value.bits, value.refs);
      EdgeCanonical(key, n, value.bits, value.refs);
      forall k: seq<bool> | |k| == n
        ensures Lookup(EdgeCell(key, n, value.bits, value.refs).value, k) == Ok(Find(m[key := value], k))
      {
        LeafLookup(EdgeCell(key, n, value.bits, value.refs).value, key, k);
      }
    }
  }

  lemma {:induction false} DeleteRepresents(n: nat, root: Option<Cell>, m: map<seq<bool>, Slice>, key: seq<bool>)
    requires n <= MAX_BIT_LEN && Represents(n, root, m) && RemoveOutcome(root, n, key).Ok?
    ensures var removal := RemoveOutcome(root, n, key).value;
      && RemovedValue(removal) == Find(m, key)
      && Represents(n, RemainingRoot(root, removal), m - {key})
  {
    hide View, EdgeCell, Lookup, Remove, LabelCode, BuildOrdinary;
    if root.Some? {
      var c := root.value;
      var removal := RemoveOutcome(root, n, key).value;
      CanonicalIsTrie(c, n);
      RemoveMeaning(c, key, key);
      forall k: seq<bool> | |k| == n
        ensures removal.Gone? && k != key ==> k !in m
        ensures removal.Left? ==> Lookup(removal.cell, k) == Ok(Find(m - {key}, k))
      {
        RemoveMeaning(c, key, k);
        assert Lookup(c, k) == Ok(Find(m, k));
      }
      if removal.Left? { RemoveCanonical(c, key); }
      if removal.Gone? {
        assert forall k :: k in m ==> k == key;
        assert m - {key} == map[];
      }
      if removal.NotFound? { assert m - {key} == m; }
    }
  }

  /** Every run of operations that succeeds is the same run on a finite map. */
  lemma {:induction false} RunRepresents(n: nat, root: Option<Cell>, m: map<seq<bool>, Slice>, ops: seq<Op>)
    requires n <= MAX_BIT_LEN && Represents(n, root, m) && Run(n, root, ops).Ok?
    ensures Represents(n, Run(n, root, ops).value, MapRun(m, ops))
    decreases |ops|
  {
    hide SetOutcome, RemoveOutcome, Represents;
    if ops != [] {
      match ops[0] {
        case Store(key, value) => StoreRepresents(n, root, m, key, value);
        case Delete(key) => DeleteRepresents(n, root, m, key);
      }
      RunRepresents(n, Step(n, root, ops[0]).value, MapStep(m, ops[0]), ops[1..]);
    }
  }

  /** A map has at most one representation. */
  lemma {:induction false} RepresentationUnique(n: nat, a: Option<Cell>, b: Option<Cell>, m: map<seq<bool>, Slice>)
    requires Represents(n, a, m) && Represents(n, b, m)
    ensures a == b
  {
    hide View, Lookup, BuildOrdinary, Canonical;
    if a.Some? { NotEmpty(n, a.value, m); }
    if b.Some? { NotEmpty(n, b.value, m); }
    if a.Some? && b.Some? {
      assert SameEntries(a.value, b.value, n);
      CanonicalUnique(a.value, b.value, n);
    }
  }

  lemma {:induction false} NotEmpty(n: nat, c: Cell, m: map<seq<bool>, Slice>)
    requires Represents(n, Some(c), m)
    ensures m != map[]
  {
    hide View, Lookup;
    CanonicalIsTrie(c, n);
    FirstKeyFound(c, n);
  }

  /** Two histories that leave the same entries leave the same root cell. */
  lemma {:induction false} HistoryIndependence(n: nat, ops: seq<Op>, ops': seq<Op>)
    requires n <= MAX_BIT_LEN && Run(n, None, ops).Ok? && Run(n, None, ops').Ok?
    requires MapRun(map[], ops) == MapRun(map[], ops')
    ensures Run(n, None, ops) == Run(n, None, ops')
  {
    RunRepresents(n, None, map[], ops);
    RunRepresents(n, None, map[], ops');
    RepresentationUnique(n, Run(n, None, ops).value, Run(n, None, ops').value, MapRun(map[], ops));
  }
}
