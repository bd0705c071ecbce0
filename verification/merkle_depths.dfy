/** How many Merkle cells lie above the cells of a tree, and when pruning is safe at all of these depths. */
module MerkleDepths {
  import opened Cells
  import opened CellHash
  import opened CellGraph
  import opened Pruning
  import opened PruningInvariance
  import opened MerkleBuild

  /** `x` lies under `e` Merkle cells in the tree of `c`, which itself lies under `d`. */
  predicate Lies(c: Cell, d: nat, x: Cell, e: nat)
    decreases c
  {
    || (x == c && e == d)
    || exists i :: 0 <= i < |c.refs| && Lies(c.refs[i], d + LevelOffset(c), x, e)
  }

  predicate LightChildren(big: bool, c: Cell) {
    forall i :: 0 <= i < |c.refs| ==> !Heavy(big, c.refs[i])
  }

  /** Heavy cells can be pruned wherever they lie below the root. */
  ghost predicate AllPrunable(big: bool, root: Cell) {
    forall x, d: nat, i :: Lies(root, 0, x, d) && 0 <= i < |x.refs| && Heavy(big, x.refs[i]) ==>
      Prunable(x.refs[i], d + LevelOffset(x))
  }

  /** What lies at two Merkle depths has nothing below it that could be pruned. */
  ghost predicate SharedLight(sha: Sha, big: bool, root: Cell) {
    forall x, d: nat, y, e: nat :: Lies(root, 0, x, d) && Lies(root, 0, y, e) && ReprHash(sha, x) == ReprHash(sha, y) && d != e ==>
      LightChildren(big, x)
  }

  ghost predicate Safe(sha: Sha, big: bool, root: Cell) {
    AllPrunable(big, root) && SharedLight(sha, big, root)
  }

  lemma {:induction false} LiesChild(c: Cell, d: nat, x: Cell, e: nat, i: nat)
    requires Lies(c, d, x, e) && i < |x.refs|
    ensures Lies(c, d, x.refs[i], e + LevelOffset(x))
    decreases c
  {
    if x == c && e == d {
      assert Lies(c.refs[i], d + LevelOffset(c), x.refs[i], e + LevelOffset(x));
    } else {
      var k :| 0 <= k < |c.refs| && Lies(c.refs[k], d + LevelOffset(c), x, e);
      LiesChild(c.refs[k], d + LevelOffset(c), x, e, i);
    }
  }

  lemma {:induction false} LiesReach(c: Cell, d: nat, x: Cell, e: nat)
    requires Lies(c, d, x, e)
    ensures x in Reach(c) && Weight(x) <= Weight(c)
    decreases c
  {
    hide Weight, Reach;
    ReachClosed(c);
    if !(x == c && e == d) {
      var k :| 0 <= k < |c.refs| && Lies(c.refs[k], d + LevelOffset(c), x, e);
      LiesReach(c.refs[k], d + LevelOffset(c), x, e);
      ReachLeast(c.refs[k], Reach(c));
      ChildWeight(c, k, 0);
    }
  }

  /** No level above the number of Merkle cells over it. */
  predicate Leveled(c: Cell, d: nat) {
    forall level :: d < level <= 3 ==> !c.mask.Contains(level)
  }

  lemma {:induction false} LiesLeveled(sha: Sha, c: Cell, d: nat, x: Cell, e: nat)
    requires Valid(sha, c) && Leveled(c, d) && Lies(c, d, x, e)
    ensures Valid(sha, x) && Leveled(x, e)
    decreases c
  {
    hide WellFormed, Shallow;
    if !(x == c && e == d) {
      var k :| 0 <= k < |c.refs| && Lies(c.refs[k], d + LevelOffset(c), x, e);
      ChildLeveled(sha, c, d, k);
      LiesLeveled(sha, c.refs[k], d + LevelOffset(c), x, e);
    }
  }

  lemma {:induction false} ChildLeveled(sha: Sha, c: Cell, d: nat, k: nat)
    requires WellFormed(sha, c) && Leveled(c, d) && k < |c.refs|
    ensures Leveled(c.refs[k], d + LevelOffset(c))
  {
    hide WellFormed;
    forall level | d + LevelOffset(c) < level <= 3
      ensures !c.refs[k].mask.Contains(level)
    {
      if c.refs[k].mask.Contains(level) { ChildLevel(sha, c, k, level - LevelOffset(c)); }
    }
  }

  /** Below a root without levels a cell can be pruned exactly under at most two Merkle cells. */
  lemma {:induction false} PrunableDepth(sha: Sha, root: Cell, x: Cell, d: nat)
    requires Valid(sha, root) && root.mask == NO_LEVELS && Lies(root, 0, x, d)
    ensures Prunable(x, d) <==> d <= 2
  {
    hide Valid, Lies;
    LiesLeveled(sha, root, 0, x, d);
  }

  /** Below no Merkle cell everything lies at depth zero. */
  predicate MerkleFree(c: Cell) {
    !c.Type().IsMerkle() && forall i :: 0 <= i < |c.refs| ==> MerkleFree(c.refs[i])
  }

  lemma {:induction false} MerkleFreeDepth(c: Cell, x: Cell, e: nat)
    requires MerkleFree(c) && Lies(c, 0, x, e)
    ensures e == 0 && MerkleFree(x)
    decreases c
  {
    if !(x == c && e == 0) {
      var k :| 0 <= k < |c.refs| && Lies(c.refs[k], 0 + LevelOffset(c), x, e);
      MerkleFreeDepth(c.refs[k], x, e);
    }
  }

  /** Trees without Merkle cells and without levels are always safe. */
  lemma {:induction false} MerkleFreeSafe(sha: Sha, big: bool, root: Cell)
    requires Valid(sha, root) && root.mask == NO_LEVELS && MerkleFree(root)
    ensures Safe(sha, big, root)
  {
    hide Valid, Lies, ReprHash, Prunable;
    forall x, d: nat | Lies(root, 0, x, d)
      ensures d == 0 && forall i :: 0 <= i < |x.refs| ==> Prunable(x.refs[i], d + LevelOffset(x))
    {
      MerkleFreeDepth(root, x, d);
      forall i | 0 <= i < |x.refs|
        ensures Prunable(x.refs[i], d + LevelOffset(x))
      {
        LiesChild(root, 0, x, d, i);
        MerkleFreeDepth(root, x.refs[i], d + LevelOffset(x));
        PrunableDepth(sha, root, x.refs[i], d + LevelOffset(x));
      }
    }
  }
}
