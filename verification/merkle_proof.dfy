/** What the Merkle proof builder returns, on roots that are safe to prune: always a pruning of the root, and a proof of it. */
module MerkleProofs {
  import opened Cells
  import opened CellHash
  import opened CellGraph
  import opened Pruning
  import opened PruningInvariance
  import opened MerkleBuild
  import opened MerkleDepths

  /** A valid root whose cells are told apart by their hashes. */
  ghost predicate World(sha: Sha, root: Cell) {
    Valid(sha, root) && CollisionFree(sha, Reach(root))
  }

  /** `p` is `o` rebuilt as the filter says, below `d` Merkle cells; whole subtrees come from `u`. */
  predicate Follows(sha: Sha, f: Filter, big: bool, u: set<Cell>, o: Cell, p: Cell, d: nat)
    decreases o, 0
  {
    && Rebuilt(o, p) && !p.storeHashes
    && forall i :: 0 <= i < |o.refs| ==> Placed(sha, f, big, u, o.refs[i], p.refs[i], d + LevelOffset(o))
  }

  /** What is in the place of a child: the subtree itself, a pruned branch, or the child rebuilt. */
  predicate Placed(sha: Sha, f: Filter, big: bool, u: set<Cell>, o: Cell, p: Cell, d: nat)
    decreases o, 1
  {
    match f(ReprHash(sha, o))
    case IncludeSubtree => p in u && Erase(p) == Erase(o)
    case Skip =>
      if |o.refs| > 0 || (big && |o.bits| > 288) then Prunable(o, d) && p == PrunedCell(sha, o, d)
      else Follows(sha, f, big, u, o, p, d)
    case Include => Follows(sha, f, big, u, o, p, d)
  }

  /** The builder goes into cells that are neither taken over whole nor replaced. */
  predicate Entered(sha: Sha, f: Filter, big: bool, c: Cell) {
    !f(ReprHash(sha, c)).IncludeSubtree? && !Replaced(sha, f, big, c)
  }

  /** A finished cell stands for all cells with its hash, wherever they lie. */
  ghost predicate CacheGood(sha: Sha, f: Filter, big: bool, root: Cell, done: Cache) {
    forall x, e: nat :: Lies(root, 0, x, e) && ReprHash(sha, x) in done ==>
      Entered(sha, f, big, x) && Follows(sha, f, big, Reach(root), x, done[ReprHash(sha, x)], e)
  }

  lemma {:induction false} PlacedEntered(sha: Sha, f: Filter, big: bool, u: set<Cell>, o: Cell, p: Cell, d: nat)
    requires Entered(sha, f, big, o)
    ensures Placed(sha, f, big, u, o, p, d) == Follows(sha, f, big, u, o, p, d)
  {
    hide ReprHash, Follows, Prunable, PrunedCell, Erase;
  }

  /** A valid tree is a pruning of itself. */
  lemma {:induction false} SelfPruned(sha: Sha, c: Cell, d: nat)
    requires Valid(sha, c)
    ensures PrunedFrom(sha, c, c, d)
    decreases c
  {
    hide WellFormed, Shallow, BuiltMask, PrunedCell;
    BuiltMaskOf(sha, c);
    forall i | 0 <= i < |c.refs|
      ensures PrunedFrom(sha, c.refs[i], c.refs[i], d + LevelOffset(c))
    {
      SelfPruned(sha, c.refs[i], d + LevelOffset(c));
    }
  }

  /** Storage flags of the original do not matter. */
  lemma {:induction false} PrunedFromErase(sha: Sha, x: Cell, y: Cell, p: Cell, d: nat)
    requires Erase(x) == Erase(y) && PrunedFrom(sha, x, p, d)
    ensures PrunedFrom(sha, y, p, d)
    decreases x
  {
    hide HashAt, DepthAt, BuiltMask, PrunedCell;
    SamePrunedCell(sha, x, y, d);
    if !(Prunable(x, d) && p == PrunedCell(sha, x, d)) {
      forall i | 0 <= i < |y.refs|
        ensures PrunedFrom(sha, y.refs[i], p.refs[i], d + LevelOffset(y))
      {
        assert Erase(x).refs[i] == Erase(x.refs[i]) && Erase(y).refs[i] == Erase(y.refs[i]);
        PrunedFromErase(sha, x.refs[i], y.refs[i], p.refs[i], d + LevelOffset(x));
      }
    }
  }

  /** What follows a filter is a pruning. */
  lemma {:induction false} PlacedIsPruned(sha: Sha, f: Filter, big: bool, u: set<Cell>, o: Cell, p: Cell, d: nat)
    requires forall x :: x in u ==> Valid(sha, x)
    ensures Placed(sha, f, big, u, o, p, d) ==> PrunedFrom(sha, o, p, d)
    ensures Follows(sha, f, big, u, o, p, d) ==> PrunedFrom(sha, o, p, d)
    decreases o
  {
    hide ReprHash, BuiltMask, PrunedCell, Prunable, Valid;
    if Follows(sha, f, big, u, o, p, d) {
      forall i | 0 <= i < |o.refs|
        ensures PrunedFrom(sha, o.refs[i], p.refs[i], d + LevelOffset(o))
      {
        PlacedIsPruned(sha, f, big, u, o.refs[i], p.refs[i], d + LevelOffset(o));
      }
    }
    if p in u && Erase(p) == Erase(o) {
      SelfPruned(sha, p, d);
      PrunedFromErase(sha, p, o, p, d);
    }
  }

  /** Cells that differ in storage flags only follow the filter alike. */
  lemma {:induction false} FollowsErase(sha: Sha, f: Filter, big: bool, u: set<Cell>, x: Cell, y: Cell, p: Cell, d: nat)
    requires Erase(x) == Erase(y)
    ensures Placed(sha, f, big, u, x, p, d) ==> Placed(sha, f, big, u, y, p, d)
    ensures Follows(sha, f, big, u, x, p, d) ==> Follows(sha, f, big, u, y, p, d)
    decreases x
  {
    hide ReprHash, BuiltMask, PrunedCell;
    SamePrunedCell(sha, x, y, d);
    SameErasure(sha, x, y);
    assert |x.refs| == |y.refs| && |x.bits| == |y.bits| && Prunable(x, d) == Prunable(y, d);
    if Follows(sha, f, big, u, x, p, d) {
      forall i | 0 <= i < |y.refs|
        ensures Placed(sha, f, big, u, y.refs[i], p.refs[i], d + LevelOffset(y))
      {
        assert Erase(x).refs[i] == Erase(x.refs[i]) && Erase(y).refs[i] == Erase(y.refs[i]);
        FollowsErase(sha, f, big, u, x.refs[i], y.refs[i], p.refs[i], d + LevelOffset(x));
      }
      assert Follows(sha, f, big, u, y, p, d);
    }
  }

  /** Over light children the Merkle depth does not matter. */
  lemma {:induction false} FollowsLight(sha: Sha, f: Filter, big: bool, u: set<Cell>, c: Cell, p: Cell, d: nat, e: nat)
    requires LightChildren(big, c) && Follows(sha, f, big, u, c, p, d)
    ensures Follows(sha, f, big, u, c, p, e)
  {
    hide ReprHash, BuiltMask, PrunedCell, Prunable, Erase;
    forall i | 0 <= i < |c.refs|
      ensures Placed(sha, f, big, u, c.refs[i], p.refs[i], e + LevelOffset(c))
    {
      var child, q, low, high := c.refs[i], p.refs[i], d + LevelOffset(c), e + LevelOffset(c);
      assert !Heavy(big, child) && Placed(sha, f, big, u, child, q, low);
      assert Follows(sha, f, big, u, child, q, low) == Follows(sha, f, big, u, child, q, high);
    }
  }

  lemma {:induction false} SamePrunedCell(sha: Sha, x: Cell, y: Cell, d: nat)
    requires Erase(x) == Erase(y)
    ensures PrunedCell(sha, x, d) == PrunedCell(sha, y, d) && x.mask == y.mask
  {
    hide HashAt, DepthAt, HashesBytes, DepthsBytes, Levels;
    var levels := KeptLevels(x, d);
    forall i | 0 <= i < |levels|
      ensures HashAt(sha, x, levels[i]) == HashAt(sha, y, levels[i]) && DepthAt(x, levels[i]) == DepthAt(y, levels[i])
    {
      EraseAnswers(sha, x, levels[i]);
      EraseAnswers(sha, y, levels[i]);
    }
    assert HashesOf(sha, x, levels) == HashesOf(sha, y, levels) && DepthsOf(x, levels) == DepthsOf(y, levels);
  }

  lemma {:induction false} RebuiltIs(sha: Sha, c: Cell, children: seq<Cell>)
    requires |children| == |c.refs|
    ensures var p := Cell(c.exotic, false, BuiltMask(c.exotic, c.bits, children), c.bits, children);
      Rebuilt(c, p) && RebuildCell(sha, c, children).Ok? == Finalizable(sha, p)
      && (RebuildCell(sha, c, children).Ok? ==> RebuildCell(sha, c, children).value == p)
  {
    hide Finalizable, BuiltMask;
  }

  /** A cell can always be rebuilt over children that follow the filter. */
  lemma {:induction false} RebuildsOver(sha: Sha, f: Filter, big: bool, u: set<Cell>, c: Cell, d: nat, children: seq<Cell>)
    requires (forall x :: x in u ==> Valid(sha, x)) && c in u
    requires AllPlaced(sha, f, big, u, c, d + LevelOffset(c), children) && |children| == |c.refs|
    ensures RebuildCell(sha, c, children).Ok? && Follows(sha, f, big, u, c, RebuildCell(sha, c, children).value, d)
  {
    hide Placed, Finalizable, BuiltMask, Agree, HashAt, DepthAt, WellFormed, PrunedFrom, Pack, RebuildCell;
    var p := Cell(c.exotic, false, BuiltMask(c.exotic, c.bits, children), c.bits, children);
    RebuiltIs(sha, c, children);
    forall i | 0 <= i < |c.refs|
      ensures Agree(sha, c.refs[i], p.refs[i], d + LevelOffset(c)) && Valid(sha, p.refs[i])
    {
      PlacedIsPruned(sha, f, big, u, c.refs[i], children[i], d + LevelOffset(c));
      PruningInvariance.PruningInvariance(sha, c.refs[i], children[i], d + LevelOffset(c));
    }
    RebuiltAgrees(sha, c, p, d);
  }

  /** Sharing a finished cell keeps the cache good: at the same depth always, elsewhere because its children are light. */
  lemma {:induction false} CacheGrows(sha: Sha, f: Filter, big: bool, root: Cell, done: Cache, c: Cell, d: nat, p: Cell)
    requires World(sha, root) && SharedLight(sha, big, root) && CacheGood(sha, f, big, root, done) && Entered(sha, f, big, c)
    requires Lies(root, 0, c, d) && Follows(sha, f, big, Reach(root), c, p, d)
    ensures CacheGood(sha, f, big, root, done[ReprHash(sha, c) := p])
  {
    hide ReprHash, Follows, Erase, Valid, Lies, LightChildren, Reach;
    var more := done[ReprHash(sha, c) := p];
    forall x, e: nat | Lies(root, 0, x, e) && ReprHash(sha, x) in more
      ensures Entered(sha, f, big, x) && Follows(sha, f, big, Reach(root), x, more[ReprHash(sha, x)], e)
    {
      if ReprHash(sha, x) == ReprHash(sha, c) {
        LiesReach(root, 0, x, e);
        LiesReach(root, 0, c, d);
        if d != e { FollowsLight(sha, f, big, Reach(root), c, p, d, e); }
        FollowsErase(sha, f, big, Reach(root), c, x, p, e);
        HeavyErase(big, c, x);
      }
    }
  }

  lemma {:induction false} HeavyErase(big: bool, x: Cell, y: Cell)
    requires Erase(x) == Erase(y)
    ensures Heavy(big, x) == Heavy(big, y) && |x.refs| == |y.refs| && LevelOffset(x) == LevelOffset(y)
  {
    assert |Erase(x).refs| == |x.refs| && |Erase(y).refs| == |y.refs|;
  }

  /** What a step puts in the place of a child is what the filter says, and no step fails. */
  lemma {:induction false} StepGood(sha: Sha, f: Filter, big: bool, root: Cell, done: Cache, c: Cell, d: nat, k: nat)
    requires World(sha, root) && Safe(sha, big, root) && CacheGood(sha, f, big, root, done)
    requires Lies(root, 0, c, d) && k < |c.refs|
    ensures var step := ChildStep(sha, f, big, done, c.refs[k], d + LevelOffset(c));
      && !step.Fail?
      && (step.Have? ==> Placed(sha, f, big, Reach(root), c.refs[k], step.cell, d + LevelOffset(c)))
      && (step.Enter? ==> Entered(sha, f, big, c.refs[k]))
  {
    hide ReprHash, Erase, Valid, CollisionFree, BuiltMask, PrunedCell, Prunable, Lies, Follows, Reach, SharedLight;
    var child, e := c.refs[k], d + LevelOffset(c);
    LiesChild(root, 0, c, d, k);
    LiesReach(root, 0, child, e);
    assert Heavy(big, child) ==> Prunable(child, e);
    if ReprHash(sha, child) in done {
      PlacedEntered(sha, f, big, Reach(root), child, done[ReprHash(sha, child)], e);
    }
  }

  lemma {:induction false} NodeGood(sha: Sha, f: Filter, big: bool, root: Cell, done: Cache, c: Cell, d: nat)
    requires World(sha, root) && Safe(sha, big, root) && CacheGood(sha, f, big, root, done) && Lies(root, 0, c, d)
    ensures var r := BuildNode(sha, f, big, done, c, d);
      && r.Ok? && Follows(sha, f, big, Reach(root), c, r.value.0, d)
      && (Entered(sha, f, big, c) ==> CacheGood(sha, f, big, root, r.value.1))
    decreases c, |c.refs| + 1
  {
    hide ReprHash, RebuildCell, CacheGood, Rebuilt, PrunedCell, Prunable, Reach, Lies, Valid, Follows, SharedLight;
    hide AllPrunable, CollisionFree, Entered, Placed;
    RefsGood(sha, f, big, root, done, c, d, 0, []);
    var refs := BuildRefs(sha, f, big, done, c, d + LevelOffset(c), 0, []);
    LiesReach(root, 0, c, d);
    ReachValid(sha, root);
    RebuildsOver(sha, f, big, Reach(root), c, d, refs.value.0);
    if Entered(sha, f, big, c) {
      CacheGrows(sha, f, big, root, refs.value.1, c, d, RebuildCell(sha, c, refs.value.0).value);
    }
  }

  ghost predicate AllPlaced(sha: Sha, f: Filter, big: bool, u: set<Cell>, c: Cell, d: nat, built: seq<Cell>) {
    |built| <= |c.refs| && forall i :: 0 <= i < |built| ==> Placed(sha, f, big, u, c.refs[i], built[i], d)
  }

  lemma {:induction false} RefsGood(sha: Sha, f: Filter, big: bool, root: Cell, done: Cache, c: Cell, d: nat, k: nat, built: seq<Cell>)
    requires World(sha, root) && Safe(sha, big, root) && CacheGood(sha, f, big, root, done) && Lies(root, 0, c, d)
    requires |built| == k <= |c.refs| && AllPlaced(sha, f, big, Reach(root), c, d + LevelOffset(c), built)
    ensures var r := BuildRefs(sha, f, big, done, c, d + LevelOffset(c), k, built);
      && r.Ok? && |r.value.0| == |c.refs| && AllPlaced(sha, f, big, Reach(root), c, d + LevelOffset(c), r.value.0)
      && CacheGood(sha, f, big, root, r.value.1)
    decreases c, |c.refs| - k
  {
    hide ReprHash, CacheGood, ChildStep, Placed, Follows, BuildNode, CollisionFree, Lies, Valid, Reach, SharedLight, AllPrunable, Entered;
    if k < |c.refs| {
      var child, e := c.refs[k], d + LevelOffset(c);
      var step := ChildStep(sha, f, big, done, child, e);
      StepGood(sha, f, big, root, done, c, d, k);
      if step.Have? {
        RefsGood(sha, f, big, root, done, c, d, k + 1, built + [step.cell]);
      } else {
        LiesChild(root, 0, c, d, k);
        NodeGood(sha, f, big, root, done, child, e);
        var node := BuildNode(sha, f, big, done, child, e);
        PlacedEntered(sha, f, big, Reach(root), child, node.value.0, e);
        RefsGood(sha, f, big, root, node.value.1, c, d, k + 1, built + [node.value.0]);
      }
    }
  }

  /** On a safe root the builder fails only for a skipped root, and what it returns follows the filter everywhere. */
  lemma {:induction false} BuiltFollows(sha: Sha, f: Filter, big: bool, allowDifferentRoot: bool, root: Cell)
    requires Valid(sha, root) && CollisionFree(sha, Reach(root)) && Safe(sha, big, root)
    ensures var r := BuildProofCell(sha, f, big, allowDifferentRoot, root);
      && (r.Ok? <==> allowDifferentRoot || !f(ReprHash(sha, root)).Skip?)
      && (r.Err? ==> r.error == EmptyProof)
      && (r.Ok? ==> Follows(sha, f, big, Reach(root), root, r.value, 0))
  {
    hide ReprHash, Valid, BuildNode, CollisionFree, Reach, Follows, Safe;
    assert Lies(root, 0, root, 0);
    NodeGood(sha, f, big, root, map[], root, 0);
  }

  /** Where no two cells differ in storage flags only, a subtree that is taken over is the very subtree. */
  lemma {:induction false} IncludedWhole(sha: Sha, f: Filter, big: bool, u: set<Cell>, o: Cell, p: Cell, d: nat, i: nat)
    requires Follows(sha, f, big, u, o, p, d) && i < |o.refs| && f(ReprHash(sha, o.refs[i])).IncludeSubtree?
    requires Closed(u) && o in u && forall x, y :: x in u && y in u && Erase(x) == Erase(y) ==> x == y
    ensures p.refs[i] == o.refs[i]
  {
    hide ReprHash, Erase, BuiltMask;
    assert Placed(sha, f, big, u, o.refs[i], p.refs[i], d + LevelOffset(o));
  }

  /** A pruning of the root answers like it, so the proof can be checked against the root's hash. */
  lemma {:induction false} BuiltIsPruned(sha: Sha, f: Filter, big: bool, allowDifferentRoot: bool, root: Cell)
    requires Valid(sha, root) && CollisionFree(sha, Reach(root)) && Safe(sha, big, root)
    ensures var r := BuildProofCell(sha, f, big, allowDifferentRoot, root);
      && (r.Ok? <==> allowDifferentRoot || !f(ReprHash(sha, root)).Skip?)
      && (r.Err? ==> r.error == EmptyProof)
      && (r.Ok? ==> PrunedFrom(sha, root, r.value, 0) && Agree(sha, root, r.value, 0) && Valid(sha, r.value))
  {
    hide ReprHash, Valid, PrunedFrom, BuildProofCell, CollisionFree, Agree, Reach, Follows, Safe;
    BuiltFollows(sha, f, big, allowDifferentRoot, root);
    var r := BuildProofCell(sha, f, big, allowDifferentRoot, root);
    if r.Ok? {
      ReachValid(sha, root);
      PlacedIsPruned(sha, f, big, Reach(root), root, r.value, 0);
      PruningInvariance.PruningInvariance(sha, root, r.value, 0);
    }
  }

  // ---------------------------------------------------------------- the proof itself

  /** The Merkle proof cell with this hash, depth and child. */
  function ProofCell(hash: Digest, depth: nat, cell: Cell): Cell {
    Cell(true, false, cell.mask.Virtualize(), BytesToBits([3] + hash + DepthBytes(depth)), [cell])
  }

  lemma {:induction false} ProofData(hash: Digest, depth: nat, cell: Cell)
    requires depth <= MAX_DEPTH
    ensures var data := ProofCell(hash, depth, cell).Data();
      && |data| == 35 && data[0] == 3 && data[1..33] == hash && BytesDepth(data[33], data[34]) == depth
      && |ProofCell(hash, depth, cell).bits| == 280
  {
    PackOfBits([3] + hash + DepthBytes(depth));
  }

  /** A proof with the root's hash and depth is well-formed exactly when the root itself has no hash of its own above level zero. */
  lemma {:induction false} ProofAccepted(sha: Sha, root: Cell, p: Cell)
    requires Valid(sha, root) && Agree(sha, root, p, 0)
    ensures WellFormed(sha, ProofCell(ReprHash(sha, root), ReprDepth(root), p)) <==>
      HashAt(sha, root, 0) == ReprHash(sha, root) && DepthAt(root, 0) == ReprDepth(root)
  {
    hide HashAt, DepthAt, Shallow, Pack;
    RootDepth(sha, root);
    ProofData(ReprHash(sha, root), ReprDepth(root), p);
    assert AgreeAt(sha, root, p, 0, 0);
    assert MaskUnion([p]) == p.mask by { assert [p][..0] == []; }
  }

  lemma {:induction false} RootDepth(sha: Sha, root: Cell)
    requires Valid(sha, root)
    ensures ReprDepth(root) <= MAX_DEPTH
  {
    hide DepthAt, WellFormed;
    DepthFits(root, MAX_LEVEL);
  }

  /** For a safe root without levels the built proof is always well-formed. */
  lemma {:induction false} ProofOfBuilt(sha: Sha, f: Filter, big: bool, allowDifferentRoot: bool, root: Cell)
    requires Valid(sha, root) && CollisionFree(sha, Reach(root)) && Safe(sha, big, root) && root.mask == NO_LEVELS
    ensures var r := BuildProofCell(sha, f, big, allowDifferentRoot, root);
      && (r.Ok? <==> allowDifferentRoot || !f(ReprHash(sha, root)).Skip?)
      && (r.Ok? ==> WellFormed(sha, ProofCell(ReprHash(sha, root), ReprDepth(root), r.value)))
  {
    hide HashAt, DepthAt, Valid, BuildProofCell, CollisionFree, Safe, Reach, Agree, WellFormed, ProofCell;
    BuiltIsPruned(sha, f, big, allowDifferentRoot, root);
    SameSignificant(sha, root, 0, MAX_LEVEL);
    var r := BuildProofCell(sha, f, big, allowDifferentRoot, root);
    if r.Ok? { ProofAccepted(sha, root, r.value); }
  }
}
