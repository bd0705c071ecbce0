/** Exactly which roots the Merkle proof builder prunes correctly for every filter. */
module MerkleNecessity {
  import opened Cells
  import opened CellHash
  import opened CellGraph
  import opened Pruning
  import opened PruningInvariance
  import opened MerkleBuild
  import opened MerkleDepths
  import opened MerkleProofs

  /** The filter that skips one cell and includes all others. */
  function SkipOnly(h: Digest): Filter { (k: Digest) => if k == h then Skip else Include }

  /** Valid cells told apart by their hashes; those with the hash `h` are heavy. */
  ghost predicate Told(sha: Sha, big: bool, u: set<Cell>, h: Digest) {
    && Closed(u) && CollisionFree(sha, u)
    && (forall x :: x in u ==> Valid(sha, x))
    && forall x :: x in u && ReprHash(sha, x) == h ==> Heavy(big, x)
  }

  ghost predicate PrunedSomewhere(sha: Sha, c: Cell, p: Cell) {
    exists e: nat :: PrunedUnder(sha, c, p, e)
  }

  /** `p` is `c` pruned at a depth at which it may lie. */
  predicate PrunedUnder(sha: Sha, c: Cell, p: Cell, e: nat) {
    Prunable(c, e) && Leveled(c, e) && p == PrunedCell(sha, c, e)
  }

  /** What the builder holds in the place of `c`. */
  ghost predicate Held(sha: Sha, h: Digest, c: Cell, p: Cell, done: Cache) {
    if ReprHash(sha, c) == h then PrunedSomewhere(sha, c, p)
    else ReprHash(sha, c) in done && p == done[ReprHash(sha, c)]
  }

  ghost predicate AllHeld(sha: Sha, h: Digest, cells: seq<Cell>, built: seq<Cell>, done: Cache) {
    |built| <= |cells| && forall i :: 0 <= i < |built| ==> Held(sha, h, cells[i], built[i], done)
  }

  ghost predicate ChildrenHeld(sha: Sha, h: Digest, x: Cell, p: Cell, done: Cache) {
    |p.refs| == |x.refs| && AllHeld(sha, h, x.refs, p.refs, done)
  }

  /** Every finished cell holds what the cache has for its children. */
  ghost predicate Shared(sha: Sha, u: set<Cell>, h: Digest, done: Cache) {
    && h !in done
    && forall x :: x in u && ReprHash(sha, x) in done ==> ChildrenHeld(sha, h, x, done[ReprHash(sha, x)], done)
  }

  /** Nothing finished is replaced, and what is new is smaller than `bound`. */
  ghost predicate CacheGrew(sha: Sha, u: set<Cell>, done: Cache, more: Cache, bound: nat) {
    && (forall k :: k in done ==> k in more && more[k] == done[k])
    && forall x :: x in u && ReprHash(sha, x) in more && ReprHash(sha, x) !in done ==> Weight(x) < bound
  }

  lemma {:induction false} HeldLater(sha: Sha, h: Digest, cells: seq<Cell>, built: seq<Cell>, done: Cache, more: Cache)
    requires AllHeld(sha, h, cells, built, done) && forall k :: k in done ==> k in more && more[k] == done[k]
    ensures AllHeld(sha, h, cells, built, more)
  {
    hide ReprHash, PrunedSomewhere;
    assert forall i :: 0 <= i < |built| ==> Held(sha, h, cells[i], built[i], done);
  }

  lemma {:induction false} HeldErase(sha: Sha, h: Digest, x: Cell, y: Cell, p: Cell, done: Cache)
    requires Erase(x) == Erase(y) && ChildrenHeld(sha, h, x, p, done)
    ensures ChildrenHeld(sha, h, y, p, done)
  {
    hide ReprHash, PrunedCell, Weight;
    assert |x.refs| == |y.refs|;
    forall i | 0 <= i < |p.refs|
      ensures Held(sha, h, y.refs[i], p.refs[i], done)
    {
      assert Erase(x).refs[i] == Erase(x.refs[i]) && Erase(y).refs[i] == Erase(y.refs[i]);
      assert Held(sha, h, x.refs[i], p.refs[i], done);
      SameErasure(sha, x.refs[i], y.refs[i]);
      if ReprHash(sha, x.refs[i]) == h {
        var e: nat :| PrunedUnder(sha, x.refs[i], p.refs[i], e);
        SamePrunedCell(sha, x.refs[i], y.refs[i], e);
        assert PrunedUnder(sha, y.refs[i], p.refs[i], e);
      }
    }
  }

  /** Finishing one more cell. */
  lemma {:induction false} SharedGrows(sha: Sha, big: bool, u: set<Cell>, h: Digest, before: Cache, done: Cache, c: Cell, p: Cell)
    requires Told(sha, big, u, h) && Shared(sha, u, h, done) && c in u && ReprHash(sha, c) != h
    requires ReprHash(sha, c) !in before && CacheGrew(sha, u, before, done, Weight(c)) && ChildrenHeld(sha, h, c, p, done)
    ensures var more := done[ReprHash(sha, c) := p];
      Shared(sha, u, h, more) && CacheGrew(sha, u, before, more, Weight(c) + 1)
  {
    hide ReprHash, Weight, Erase, Heavy, Valid, ChildrenHeld;
    var more := done[ReprHash(sha, c) := p];
    assert ReprHash(sha, c) !in done;
    forall x | x in u && ReprHash(sha, x) in more
      ensures ChildrenHeld(sha, h, x, more[ReprHash(sha, x)], more)
      ensures ReprHash(sha, x) !in before ==> Weight(x) < Weight(c) + 1
    {
      if ReprHash(sha, x) == ReprHash(sha, c) {
        SameErasure(sha, c, x);
        HeldErase(sha, h, c, x, p, done);
      }
      ChildrenLater(sha, h, x, more[ReprHash(sha, x)], done, more);
    }
  }

  lemma {:induction false} ChildrenLater(sha: Sha, h: Digest, x: Cell, p: Cell, done: Cache, more: Cache)
    requires ChildrenHeld(sha, h, x, p, done) && forall k :: k in done ==> k in more && more[k] == done[k]
    ensures ChildrenHeld(sha, h, x, p, more)
  {
    HeldLater(sha, h, x.refs, p.refs, done, more);
  }

  /** What a step of the builder puts in the place of a child is held there; what it enters is new. */
  lemma {:induction false} StepHeld(sha: Sha, big: bool, u: set<Cell>, h: Digest, done: Cache, child: Cell, d: nat)
    requires Told(sha, big, u, h) && Shared(sha, u, h, done) && child in u && Leveled(child, d)
    ensures var step := ChildStep(sha, SkipOnly(h), big, done, child, d);
      && (step.Have? ==> Held(sha, h, child, step.cell, done))
      && (step.Enter? ==> ReprHash(sha, child) !in done && ReprHash(sha, child) != h)
  {
    hide ReprHash, PrunedCell, Heavy, Valid, CollisionFree, Closed, Leveled, Prunable;
    var step := ChildStep(sha, SkipOnly(h), big, done, child, d);
    if step.Have? && ReprHash(sha, child) == h { assert PrunedUnder(sha, child, step.cell, d); }
  }

  lemma {:induction false} NodeShares(sha: Sha, big: bool, u: set<Cell>, h: Digest, done: Cache, c: Cell, d: nat)
    requires Told(sha, big, u, h) && Shared(sha, u, h, done) && c in u && Leveled(c, d)
    requires ReprHash(sha, c) !in done && ReprHash(sha, c) != h
    ensures var r := BuildNode(sha, SkipOnly(h), big, done, c, d);
      r.Ok? ==>
        && Shared(sha, u, h, r.value.1) && CacheGrew(sha, u, done, r.value.1, Weight(c) + 1)
        && ReprHash(sha, c) in r.value.1 && r.value.1[ReprHash(sha, c)] == r.value.0
    decreases c, |c.refs| + 1
  {
    hide ReprHash, RebuildCell, Shared, Told, CacheGrew, Weight, Leveled, AllHeld, SkipOnly;
    var f := SkipOnly(h);
    GrewNothing(sha, u, done, Weight(c));
    HeldNothing(sha, h, c.refs, done);
    RefsShare(sha, big, u, h, done, done, c, d, 0, []);
    var refs := BuildRefs(sha, f, big, done, c, d + LevelOffset(c), 0, []);
    if refs.Ok? && RebuildCell(sha, c, refs.value.0).Ok? {
      RebuiltIs(sha, c, refs.value.0);
      SharedGrows(sha, big, u, h, done, refs.value.1, c, RebuildCell(sha, c, refs.value.0).value);
    }
  }

  lemma {:induction false} GrewNothing(sha: Sha, u: set<Cell>, done: Cache, bound: nat)
    ensures CacheGrew(sha, u, done, done, bound)
  {
    hide ReprHash, Weight;
  }

  lemma {:induction false} HeldNothing(sha: Sha, h: Digest, cells: seq<Cell>, done: Cache)
    ensures AllHeld(sha, h, cells, [], done)
  {
  }

  lemma {:induction false} GrewMore(sha: Sha, u: set<Cell>, a: Cache, b: Cache, c: Cache, low: nat, bound: nat)
    requires CacheGrew(sha, u, a, b, bound) && CacheGrew(sha, u, b, c, low) && low <= bound
    ensures CacheGrew(sha, u, a, c, bound)
  {
    hide ReprHash, Weight;
  }

  lemma {:induction false} HeldNext(sha: Sha, h: Digest, cells: seq<Cell>, built: seq<Cell>, p: Cell, done: Cache)
    requires AllHeld(sha, h, cells, built, done) && |built| < |cells| && Held(sha, h, cells[|built|], p, done)
    ensures AllHeld(sha, h, cells, built + [p], done)
  {
    hide Held;
  }

  /** The same for the children from the `k`-th on. */
  lemma {:induction false} RefsShare(sha: Sha, big: bool, u: set<Cell>, h: Digest, before: Cache, done: Cache, c: Cell, d: nat,
                                     k: nat, built: seq<Cell>)
    requires Told(sha, big, u, h) && Shared(sha, u, h, done) && c in u && Leveled(c, d) && CacheGrew(sha, u, before, done, Weight(c))
    requires |built| == k <= |c.refs| && AllHeld(sha, h, c.refs, built, done)
    ensures var r := BuildRefs(sha, SkipOnly(h), big, done, c, d + LevelOffset(c), k, built);
      r.Ok? ==>
        && |r.value.0| == |c.refs| && AllHeld(sha, h, c.refs, r.value.0, r.value.1)
        && Shared(sha, u, h, r.value.1) && CacheGrew(sha, u, before, r.value.1, Weight(c))
    decreases c, |c.refs| - k
  {
    hide ReprHash, ChildStep, BuildNode, Shared, CacheGrew, Weight, AllHeld, SkipOnly, Heavy, Valid, CollisionFree, WellFormed, Leveled, Held;
    if k < |c.refs| {
      var f, child, e := SkipOnly(h), c.refs[k], d + LevelOffset(c);
      ValidFormed(sha, c);
      ChildLeveled(sha, c, d, k);
      StepHeld(sha, big, u, h, done, child, e);
      var step := ChildStep(sha, f, big, done, child, e);
      if step.Have? {
        HeldNext(sha, h, c.refs, built, step.cell, done);
        RefsShare(sha, big, u, h, before, done, c, d, k + 1, built + [step.cell]);
      } else if step.Enter? {
        NodeShares(sha, big, u, h, done, child, e);
        var node := BuildNode(sha, f, big, done, child, e);
        if node.Ok? {
          var p, more := node.value.0, node.value.1;
          ChildWeight(c, k, 0);
          EnteredHeld(sha, u, h, done, more, c.refs, built, child, p, Weight(child) + 1);
          GrewMore(sha, u, before, done, more, Weight(child) + 1, Weight(c));
          RefsShare(sha, big, u, h, before, more, c, d, k + 1, built + [p]);
        }
      }
    }
  }

  lemma {:induction false} EnteredHeld(sha: Sha, u: set<Cell>, h: Digest, done: Cache, more: Cache, cells: seq<Cell>, built: seq<Cell>,
                                       child: Cell, p: Cell, bound: nat)
    requires AllHeld(sha, h, cells, built, done) && |built| < |cells| && cells[|built|] == child
    requires CacheGrew(sha, u, done, more, bound) && ReprHash(sha, child) != h
    requires ReprHash(sha, child) in more && more[ReprHash(sha, child)] == p
    ensures AllHeld(sha, h, cells, built + [p], more)
  {
    hide ReprHash, Weight, AllHeld;
    HeldLater(sha, h, cells, built, done, more);
    HeldNext(sha, h, cells, built, p, more);
  }

  lemma {:induction false} ValidFormed(sha: Sha, c: Cell)
    requires Valid(sha, c)
    ensures WellFormed(sha, c)
  {
    hide WellFormed;
  }

  // ---------------------------------------------------------------- what a pruning of the root holds where

  lemma {:induction false} PrunedChild(sha: Sha, c: Cell, p: Cell, d: nat, k: nat)
    requires PrunedFrom(sha, c, p, d) && k < |c.refs| && k < |p.refs|
    ensures PrunedFrom(sha, c.refs[k], p.refs[k], d + LevelOffset(c))
  {
    hide PrunedData, BuiltMask, Prunable;
  }

  lemma {:induction false} SharedChild(sha: Sha, u: set<Cell>, h: Digest, done: Cache, c: Cell, k: nat)
    requires Shared(sha, u, h, done) && c in u && ReprHash(sha, c) in done && k < |c.refs|
    ensures var p := done[ReprHash(sha, c)]; |p.refs| == |c.refs| && Held(sha, h, c.refs[k], p.refs[k], done)
  {
    hide ReprHash, Held;
    assert ChildrenHeld(sha, h, c, done[ReprHash(sha, c)], done);
  }

  /** Down to a cell heavier than the skipped one, a pruned root holds what the cache has. */
  lemma {:induction false} HeldAt(sha: Sha, big: bool, u: set<Cell>, y: Cell, done: Cache, c: Cell, d: nat, x: Cell, e: nat)
    requires y in u && Told(sha, big, u, ReprHash(sha, y)) && Shared(sha, u, ReprHash(sha, y), done)
    requires c in u && ReprHash(sha, c) in done && PrunedFrom(sha, c, done[ReprHash(sha, c)], d)
    requires Lies(c, d, x, e) && Weight(y) < Weight(x)
    ensures x in u && ReprHash(sha, x) in done && PrunedFrom(sha, x, done[ReprHash(sha, x)], e)
    decreases c
  {
    hide ReprHash, Weight, Heavy, Valid, Erase, PrunedFrom, PrunedSomewhere, Shared;
    if !(x == c && e == d) {
      var k :| 0 <= k < |c.refs| && Lies(c.refs[k], d + LevelOffset(c), x, e);
      var child := c.refs[k];
      LiesReach(child, d + LevelOffset(c), x, e);
      SharedChild(sha, u, ReprHash(sha, y), done, c, k);
      PrunedChild(sha, c, done[ReprHash(sha, c)], d, k);
      OtherHash(sha, u, child, y);
      HeldAt(sha, big, u, y, done, child, d + LevelOffset(c), x, e);
    }
  }

  lemma {:induction false} OtherHash(sha: Sha, u: set<Cell>, x: Cell, y: Cell)
    requires CollisionFree(sha, u) && x in u && y in u && Weight(y) < Weight(x)
    ensures ReprHash(sha, x) != ReprHash(sha, y)
  {
    hide ReprHash, Weight, Erase;
    if ReprHash(sha, x) == ReprHash(sha, y) { SameErasure(sha, x, y); }
  }

  /** A pruned heavy cell in the place of that cell was pruned for the depth at which it lies. */
  lemma {:induction false} PrunedHere(sha: Sha, y: Cell, p: Cell, e: nat, k: nat)
    requires WellFormed(sha, y) && Leveled(y, k) && PrunedUnder(sha, y, p, e) && PrunedFrom(sha, y, p, k)
    ensures Prunable(y, k) && e == k
  {
    hide HashAt, DepthAt, Pack, PrunedData;
    PrunedDataOf(sha, y, e);
    PrunedStart(sha, y, e);
    MaskByteRoundTrip(y.mask);
    MaskByteRoundTrip(PrunedMask(y, e));
    assert !y.mask.Contains(e + 1);
    if !(Prunable(y, k) && p == PrunedCell(sha, y, k)) {
      assert false;
    }
    assert PrunedMask(y, k) == PrunedMask(y, e);
    assert !y.mask.Contains(k + 1);
  }

  lemma {:induction false} PrunedStart(sha: Sha, c: Cell, d: nat)
    ensures |PrunedData(sha, c, d)| >= 2
    ensures PrunedData(sha, c, d)[0] == 1 && PrunedData(sha, c, d)[1] == PrunedMask(c, d).ToByte()
  {
    hide HashAt, DepthAt, HashesBytes, DepthsBytes;
  }

  // ---------------------------------------------------------------- safe roots

  /** The builder succeeds with this filter and returns a pruning of the root. */
  predicate PrunesWell(sha: Sha, f: Filter, big: bool, root: Cell) {
    var r := BuildProofCell(sha, f, big, true, root);
    r.Ok? && PrunedFrom(sha, root, r.value, 0)
  }

  /** The cache with which a filter that skips a heavy child `y` of a cell in the tree leaves the builder. */
  lemma {:induction false} SkippedBuilt(sha: Sha, big: bool, root: Cell, y: Cell) returns (done: Cache)
    requires Valid(sha, root) && root.mask == NO_LEVELS && CollisionFree(sha, Reach(root))
    requires y in Reach(root) && Weight(y) < Weight(root) && Heavy(big, y)
    requires PrunesWell(sha, SkipOnly(ReprHash(sha, y)), big, root)
    ensures Told(sha, big, Reach(root), ReprHash(sha, y)) && Shared(sha, Reach(root), ReprHash(sha, y), done)
    ensures root in Reach(root) && ReprHash(sha, root) in done && PrunedFrom(sha, root, done[ReprHash(sha, root)], 0)
  {
    hide ReprHash, Weight, Valid, Erase, Reach, PrunedFrom, BuildNode, SkipOnly, ChildrenHeld, Closed;
    var u, h, f := Reach(root), ReprHash(sha, y), SkipOnly(ReprHash(sha, y));
    ReachClosed(root);
    ReachValid(sha, root);
    forall x | x in u && ReprHash(sha, x) == h
      ensures Heavy(big, x) && x != root
    {
      SameErasure(sha, x, y);
      HeavyErase(big, x, y);
    }
    NodeShares(sha, big, u, h, map[], root, 0);
    done := BuildNode(sha, f, big, map[], root, 0).value.1;
  }

  /** Where a heavy child lies in the tree, it was pruned for that very depth. */
  lemma {:induction false} ChildPruned(sha: Sha, big: bool, root: Cell, y: Cell, done: Cache, x: Cell, d: nat, i: nat, e: nat)
    requires Valid(sha, root) && root.mask == NO_LEVELS && y in Reach(root)
    requires Told(sha, big, Reach(root), ReprHash(sha, y)) && Shared(sha, Reach(root), ReprHash(sha, y), done)
    requires root in Reach(root) && ReprHash(sha, root) in done && PrunedFrom(sha, root, done[ReprHash(sha, root)], 0)
    requires Lies(root, 0, x, d) && i < |x.refs| && ReprHash(sha, x.refs[i]) == ReprHash(sha, y)
    requires ReprHash(sha, x) in done && i < |done[ReprHash(sha, x)].refs|
    requires PrunedUnder(sha, x.refs[i], done[ReprHash(sha, x)].refs[i], e)
    ensures Prunable(x.refs[i], d + LevelOffset(x)) && e == d + LevelOffset(x)
  {
    hide ReprHash, Weight, Valid, Erase, Reach, Heavy, Prunable, PrunedCell, PrunedFrom, PrunedUnder, Lies, Shared;
    var child, k := x.refs[i], d + LevelOffset(x);
    ChildWeight(x, i, 0);
    LiesReach(root, 0, x, d);
    LiesChild(root, 0, x, d, i);
    LiesReach(root, 0, child, k);
    SameErasure(sha, child, y);
    HeldAt(sha, big, Reach(root), y, done, root, 0, x, d);
    PrunedChild(sha, x, done[ReprHash(sha, x)], d, i);
    LiesLeveled(sha, root, 0, child, k);
    ValidFormed(sha, child);
    PrunedHere(sha, child, done[ReprHash(sha, x)].refs[i], e, k);
  }

  /** What the builder holds in the place of a heavy child it skips. */
  lemma {:induction false} ChildHeld(sha: Sha, big: bool, root: Cell, done: Cache, x: Cell, d: nat, i: nat) returns (e: nat)
    requires Valid(sha, root) && i < |x.refs| && Lies(root, 0, x, d)
    requires var h := ReprHash(sha, x.refs[i]);
      Told(sha, big, Reach(root), h) && Shared(sha, Reach(root), h, done)
    requires x.refs[i] in Reach(root)
    requires root in Reach(root) && ReprHash(sha, root) in done && PrunedFrom(sha, root, done[ReprHash(sha, root)], 0)
    ensures x in Reach(root) && ReprHash(sha, x) in done && i < |done[ReprHash(sha, x)].refs|
    ensures PrunedUnder(sha, x.refs[i], done[ReprHash(sha, x)].refs[i], e)
  {
    hide ReprHash, Weight, Valid, Erase, Reach, Heavy, Prunable, PrunedCell, PrunedFrom, Lies, PrunedUnder, Shared;
    var y := x.refs[i];
    ChildWeight(x, i, 0);
    HeldAt(sha, big, Reach(root), y, done, root, 0, x, d);
    SharedChild(sha, Reach(root), ReprHash(sha, y), done, x, i);
    e :| PrunedUnder(sha, y, done[ReprHash(sha, x)].refs[i], e);
  }

  /** Skipping a heavy cell works only where the cell can be pruned. */
  lemma {:induction false} MustBePrunable(sha: Sha, big: bool, root: Cell, x: Cell, d: nat, i: nat)
    requires Valid(sha, root) && root.mask == NO_LEVELS && CollisionFree(sha, Reach(root))
    requires Lies(root, 0, x, d) && i < |x.refs| && Heavy(big, x.refs[i])
    requires PrunesWell(sha, SkipOnly(ReprHash(sha, x.refs[i])), big, root)
    ensures Prunable(x.refs[i], d + LevelOffset(x))
  {
    hide ReprHash, Weight, Valid, Erase, Reach, Heavy, Prunable, Lies, PrunedUnder, PrunesWell, PrunedFrom, Told, Shared;
    BelowRoot(root, x, d, i);
    var done := SkippedBuilt(sha, big, root, x.refs[i]);
    var e := ChildHeld(sha, big, root, done, x, d, i);
    ChildPruned(sha, big, root, x.refs[i], done, x, d, i, e);
  }

  lemma {:induction false} BelowRoot(root: Cell, x: Cell, d: nat, i: nat)
    requires Lies(root, 0, x, d) && i < |x.refs|
    ensures x.refs[i] in Reach(root) && Weight(x.refs[i]) < Weight(root)
  {
    hide Weight, Reach, Lies;
    ChildWeight(x, i, 0);
    LiesReach(root, 0, x, d);
    LiesChild(root, 0, x, d, i);
    LiesReach(root, 0, x.refs[i], d + LevelOffset(x));
  }

  /** One finished cell cannot be right at two depths when a child of it was pruned. */
  lemma {:induction false} MustLieOnce(sha: Sha, big: bool, root: Cell, x: Cell, d: nat, y: Cell, e: nat, i: nat)
    requires Valid(sha, root) && root.mask == NO_LEVELS && CollisionFree(sha, Reach(root))
    requires Lies(root, 0, x, d) && Lies(root, 0, y, e) && ReprHash(sha, x) == ReprHash(sha, y)
    requires i < |x.refs| && Heavy(big, x.refs[i]) && PrunesWell(sha, SkipOnly(ReprHash(sha, x.refs[i])), big, root)
    ensures d == e
  {
    hide ReprHash, Weight, Valid, Reach, Heavy, Prunable, Lies, PrunesWell, PrunedFrom, Told, Shared, PrunedCell, Leveled;
    BelowRoot(root, x, d, i);
    var done := SkippedBuilt(sha, big, root, x.refs[i]);
    var k := ChildHeld(sha, big, root, done, x, d, i);
    ChildPruned(sha, big, root, x.refs[i], done, x, d, i, k);
    LiesReach(root, 0, x, d);
    LiesReach(root, 0, y, e);
    HeavyErase(big, x, y);
    assert Erase(x).refs[i] == Erase(x.refs[i]) && Erase(y).refs[i] == Erase(y.refs[i]);
    SameErasure(sha, x.refs[i], y.refs[i]);
    BelowRoot(root, y, e, i);
    SamePrunedCell(sha, x.refs[i], y.refs[i], k);
    assert PrunedUnder(sha, y.refs[i], done[ReprHash(sha, y)].refs[i], k) by { SamePrunable(x.refs[i], y.refs[i], k); }
    ChildPruned(sha, big, root, x.refs[i], done, y, e, i, k);
  }

  lemma {:induction false} SamePrunable(x: Cell, y: Cell, k: nat)
    requires x.mask == y.mask
    ensures Prunable(x, k) == Prunable(y, k) && Leveled(x, k) == Leveled(y, k)
  {
  }

  /** Every filter gives a pruning of the root exactly when the root is safe. */
  lemma {:induction false} PrunesWellIffSafe(sha: Sha, big: bool, root: Cell)
    requires Valid(sha, root) && root.mask == NO_LEVELS && CollisionFree(sha, Reach(root))
    ensures (forall f: Filter :: PrunesWell(sha, f, big, root)) <==> Safe(sha, big, root)
  {
    hide ReprHash, Valid, Reach, Heavy, Prunable, Lies, PrunesWell, CollisionFree, SkipOnly;
    if Safe(sha, big, root) {
      forall f: Filter
        ensures PrunesWell(sha, f, big, root)
      {
        SafePrunes(sha, f, big, root);
      }
    }
    if forall f: Filter :: PrunesWell(sha, f, big, root) {
      forall x, d: nat, i | Lies(root, 0, x, d) && 0 <= i < |x.refs| && Heavy(big, x.refs[i])
        ensures Prunable(x.refs[i], d + LevelOffset(x))
      {
        MustBePrunable(sha, big, root, x, d, i);
      }
      forall x, d: nat, y, e: nat, i |
          Lies(root, 0, x, d) && Lies(root, 0, y, e) && ReprHash(sha, x) == ReprHash(sha, y) && 0 <= i < |x.refs|
        ensures Heavy(big, x.refs[i]) ==> d == e
      {
        if Heavy(big, x.refs[i]) { MustLieOnce(sha, big, root, x, d, y, e, i); }
      }
    }
  }

  lemma {:induction false} SafePrunes(sha: Sha, f: Filter, big: bool, root: Cell)
    requires Valid(sha, root) && CollisionFree(sha, Reach(root)) && Safe(sha, big, root)
    ensures PrunesWell(sha, f, big, root)
  {
    hide Valid, Reach, CollisionFree, Safe, BuildProofCell, PrunedFrom, Agree;
    BuiltIsPruned(sha, f, big, true, root);
  }
}
