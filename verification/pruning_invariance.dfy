/** Replacing subtrees by pruned branches keeps every hash and depth that an enclosing Merkle cell can see. */
module PruningInvariance {
  import opened Cells
  import opened CellHash
  import opened Pruning

  predicate SameNode(o: Cell, p: Cell) {
    p.exotic == o.exotic && p.bits == o.bits && |p.refs| == |o.refs|
  }

  /** `p` is the cell a builder makes from the data of `o` and the given children. */
  predicate Rebuilt(o: Cell, p: Cell) {
    SameNode(o, p) && p.mask == BuiltMask(p.exotic, p.bits, p.refs)
  }

  /** `p` is `o` with some subtrees replaced by pruned branches; `d` counts the Merkle cells above. */
  predicate PrunedFrom(sha: Sha, o: Cell, p: Cell, d: nat)
    decreases o
  {
    || (Prunable(o, d) && p == PrunedCell(sha, o, d))
    || (Rebuilt(o, p)
        && forall i :: 0 <= i < |o.refs| ==> PrunedFrom(sha, o.refs[i], p.refs[i], d + LevelOffset(o)))
  }

  /** Pruning below `d` Merkle cells adds at most level `d + 1` to a mask. */
  predicate MaskGrew(o: LevelMask, p: LevelMask, d: nat) {
    forall level :: 0 <= level <= 3 ==>
      (o.Contains(level) ==> p.Contains(level)) && (p.Contains(level) && level != d + 1 ==> o.Contains(level))
  }

  /** What survives at one level: the answers up to `d`, and a depth that is no larger. */
  predicate AgreeAt(sha: Sha, o: Cell, p: Cell, d: nat, level: nat) {
    && (level <= d ==> HashAt(sha, p, level) == HashAt(sha, o, level) && DepthAt(p, level) == DepthAt(o, level))
    && DepthAt(p, level) <= DepthAt(o, level)
  }

  ghost predicate Agree(sha: Sha, o: Cell, p: Cell, d: nat) {
    MaskGrew(o.mask, p.mask, d) && forall level: nat :: AgreeAt(sha, o, p, d, level)
  }

  // ---------------------------------------------------------------- one pruned branch

  lemma {:induction false} SignificantAnswers(sha: Sha, c: Cell, level: nat)
    ensures HashAt(sha, c, c.mask.Significant(level)) == HashAt(sha, c, level)
    ensures DepthAt(c, c.mask.Significant(level)) == DepthAt(c, level)
  {
    HashIndexOfSignificant(c.mask, level);
  }

  lemma {:induction false} DepthFits(c: Cell, level: nat)
    requires Shallow(c)
    ensures DepthAt(c, level) <= MAX_DEPTH
  {
    if !c.Type().PrunedBranch? {
      var s := c.mask.Significant(level);
      assert Computed(c, s) && ShallowAt(c, s);
      TallestBound(ChildDepths(c, s + LevelOffset(c)));
    }
  }

  lemma {:induction false} TallestBound(depths: seq<nat>)
    requires AllShallow(depths)
    ensures Tallest(depths) <= MAX_DEPTH
  {
    if depths != [] { TallestBound(depths[..|depths| - 1]); }
  }

  /** Where the answer for `level` is written in a pruned branch. */
  lemma {:induction false} KeptLevelAt(c: Cell, d: nat, level: nat)
    requires Prunable(c, d) && level <= d
    ensures var i := PrunedMask(c, d).HashIndex(level);
      && i < |KeptLevels(c, d)| == PrunedMask(c, d).Level()
      && KeptLevels(c, d)[i] == c.mask.Significant(level)
  {
    CountMatches(c, d);
    var s := c.mask.Significant(level);
    assert c.mask.And(FromLevel(d)).Contains(s);
  }

  lemma {:induction false} PrunedDataOf(sha: Sha, c: Cell, d: nat)
    requires Prunable(c, d)
    ensures PrunedCell(sha, c, d).Data() == PrunedData(sha, c, d)
    ensures |PrunedData(sha, c, d)| == 2 + 34 * PrunedMask(c, d).Level()
  {
    PackOfBits(PrunedData(sha, c, d));
    CountMatches(c, d);
    HashesBytesLength(HashesOf(sha, c, KeptLevels(c, d)));
    DepthsBytesLength(DepthsOf(c, KeptLevels(c, d)));
  }

  /** Hashes and depths are found where they were written. */
  lemma {:induction false} StoredAnswers(p: Cell, head: seq<byte>, hashes: seq<Digest>, depths: seq<nat>, i: nat)
    requires |head| == 2 && p.Data() == head + HashesBytes(hashes) + DepthsBytes(depths)
    requires i < |hashes| == |depths| == p.mask.Level() && depths[i] <= MAX_DEPTH
    ensures StoredHash(p, i) == hashes[i] && StoredDepth(p, i) == depths[i]
  {
    hide HashesBytes, DepthsBytes, Pack;
    HashesBytesAt(hashes, i);
    DepthsBytesAt(depths, i);
    SliceMiddle(head, HashesBytes(hashes), DepthsBytes(depths), 32 * i, 32 * i + 32);
    var at := 2 + 32 * |hashes| + 2 * i;
    assert p.Data()[at] == DepthsBytes(depths)[2 * i] && p.Data()[at + 1] == DepthsBytes(depths)[2 * i + 1];
  }

  lemma {:induction false} PrunedStores(sha: Sha, o: Cell, d: nat, i: nat)
    requires Shallow(o) && Prunable(o, d) && i < |KeptLevels(o, d)| == PrunedMask(o, d).Level()
    ensures StoredHash(PrunedCell(sha, o, d), i) == HashAt(sha, o, KeptLevels(o, d)[i])
    ensures StoredDepth(PrunedCell(sha, o, d), i) == DepthAt(o, KeptLevels(o, d)[i])
  {
    hide HashAt, DepthAt, Pack, HashesBytes, DepthsBytes, KeptLevels, Shallow, StoredHash, StoredDepth, Prunable;
    var levels := KeptLevels(o, d);
    PrunedDataOf(sha, o, d);
    DepthFits(o, levels[i]);
    var head := [1, PrunedMask(o, d).ToByte()];
    StoredAnswers(PrunedCell(sha, o, d), head, HashesOf(sha, o, levels), DepthsOf(o, levels), i);
  }

  /** A pruned branch answers like the cell it stands for at all the levels below the new one. */
  lemma {:induction false} PrunedAnswers(sha: Sha, o: Cell, d: nat, level: nat)
    requires Shallow(o) && Prunable(o, d) && level <= d
    ensures HashAt(sha, PrunedCell(sha, o, d), level) == HashAt(sha, o, level)
    ensures DepthAt(PrunedCell(sha, o, d), level) == DepthAt(o, level)
  {
    KeptLevelAt(o, d, level);
    SignificantAnswers(sha, o, level);
    PrunedStores(sha, o, d, PrunedMask(o, d).HashIndex(level));
  }

  /** Above its new level a pruned branch is a leaf. */
  lemma {:induction false} PrunedLeaf(sha: Sha, o: Cell, d: nat, level: nat)
    requires Prunable(o, d) && level > d
    ensures DepthAt(PrunedCell(sha, o, d), level) == 0
  {
    hide Pack, PrunedData, StoredDepth, BytesToBits;
    assert o.mask.Contains(2) == o.mask.l2 && o.mask.Contains(3) == o.mask.l3;
  }

  lemma {:induction false} PrunedValid(sha: Sha, o: Cell, d: nat)
    requires Prunable(o, d)
    ensures Valid(sha, PrunedCell(sha, o, d))
  {
    var p := PrunedCell(sha, o, d);
    PrunedDataOf(sha, o, d);
    CountMatches(o, d);
    PrunedChecks(sha, p);
  }

  lemma {:induction false} PrunedBranchAgrees(sha: Sha, o: Cell, d: nat)
    requires Shallow(o) && Prunable(o, d)
    ensures Agree(sha, o, PrunedCell(sha, o, d), d)
    ensures Valid(sha, PrunedCell(sha, o, d))
  {
    var p := PrunedCell(sha, o, d);
    forall level: nat
      ensures AgreeAt(sha, o, p, d, level)
    {
      if level <= d { PrunedAnswers(sha, o, d, level); } else { PrunedLeaf(sha, o, d, level); }
    }
    PrunedValid(sha, o, d);
    assert MaskGrew(o.mask, p.mask, d);
  }

  // ---------------------------------------------------------------- one rebuilt cell

  lemma {:induction false} UnionGrew(os: seq<Cell>, ps: seq<Cell>, d: nat)
    requires |os| == |ps| && forall i :: 0 <= i < |os| ==> MaskGrew(os[i].mask, ps[i].mask, d)
    ensures MaskGrew(MaskUnion(os), MaskUnion(ps), d)
  {
    if os != [] {
      var n := |os| - 1;
      forall i | 0 <= i < n
        ensures MaskGrew(os[..n][i].mask, ps[..n][i].mask, d)
      {
        assert MaskGrew(os[i].mask, ps[i].mask, d);
      }
      UnionGrew(os[..n], ps[..n], d);
      OrGrew(MaskUnion(os[..n]), MaskUnion(ps[..n]), os[n].mask, ps[n].mask, d);
    }
  }

  lemma {:induction false} OrGrew(o: LevelMask, p: LevelMask, o': LevelMask, p': LevelMask, d: nat)
    requires MaskGrew(o, p, d) && MaskGrew(o', p', d)
    ensures MaskGrew(o.Or(o'), p.Or(p'), d)
  {
    forall level | 0 <= level <= 3
      ensures o.Or(o').Contains(level) == (o.Contains(level) || o'.Contains(level))
      ensures p.Or(p').Contains(level) == (p.Contains(level) || p'.Contains(level))
    {
    }
  }

  lemma {:induction false} VirtualizeGrew(o: LevelMask, p: LevelMask, d: nat)
    requires MaskGrew(o, p, d + 1)
    ensures MaskGrew(o.Virtualize(), p.Virtualize(), d)
  {
    forall level | 1 <= level <= 3
      ensures o.Virtualize().Contains(level) == o.Contains(level + 1)
      ensures p.Virtualize().Contains(level) == p.Contains(level + 1)
    {
    }
  }

  /** The builder gives an accepted cell the mask it already has. */
  lemma {:induction false} BuiltMaskOf(sha: Sha, c: Cell)
    requires WellFormed(sha, c)
    ensures BuiltMask(c.exotic, c.bits, c.refs) == c.mask
  {
    MaskByteRoundTrip(c.mask);
  }

  lemma {:induction false} RebuiltMask(sha: Sha, o: Cell, p: Cell, d: nat)
    requires WellFormed(sha, o) && Rebuilt(o, p)
    requires forall i :: 0 <= i < |o.refs| ==> MaskGrew(o.refs[i].mask, p.refs[i].mask, d + LevelOffset(o))
    ensures MaskGrew(o.mask, p.mask, d) && p.Type() == o.Type()
    ensures o.refs == [] ==> p.mask == o.mask
  {
    BuiltMaskOf(sha, o);
    UnionGrew(o.refs, p.refs, d + LevelOffset(o));
    if o.Type().IsMerkle() {
      TypeByte(sha, o);
      VirtualizeGrew(MaskUnion(o.refs), MaskUnion(p.refs), d);
    }
  }

  /** A level a child has is a level its parent has, one lower below a Merkle cell. */
  lemma {:induction false} ChildLevel(sha: Sha, c: Cell, i: nat, level: nat)
    requires WellFormed(sha, c) && i < |c.refs| && level >= 1
    requires c.refs[i].mask.Contains(level + LevelOffset(c))
    ensures c.mask.Contains(level)
  {
    MaskUnionContains(c.refs, level + LevelOffset(c));
  }

  lemma {:induction false} SameSignificant(sha: Sha, c: Cell, low: nat, high: nat)
    requires low <= high && forall level :: low < level <= high ==> !c.mask.Contains(level)
    ensures HashAt(sha, c, low) == HashAt(sha, c, high) && DepthAt(c, low) == DepthAt(c, high)
  {
    assert c.mask.Significant(low) == c.mask.Significant(high);
    SignificantAnswers(sha, c, low);
    SignificantAnswers(sha, c, high);
  }

  /** The depth of an accepted cell depends on its children's depths at the very same level. */
  lemma {:induction false} DepthFollowsChildren(sha: Sha, c: Cell, level: nat)
    requires WellFormed(sha, c) && !c.Type().PrunedBranch?
    ensures ChildDepths(c, c.mask.Significant(level) + LevelOffset(c)) == ChildDepths(c, level + LevelOffset(c))
    ensures DepthAt(c, level) == Tallest(ChildDepths(c, level + LevelOffset(c)))
  {
    hide WellFormed, HashAt, Pack;
    var s := c.mask.Significant(level);
    forall i | 0 <= i < |c.refs|
      ensures DepthAt(c.refs[i], s + LevelOffset(c)) == DepthAt(c.refs[i], level + LevelOffset(c))
    {
      forall k | s + LevelOffset(c) < k <= level + LevelOffset(c)
        ensures !c.refs[i].mask.Contains(k)
      {
        if c.refs[i].mask.Contains(k) { ChildLevel(sha, c, i, k - LevelOffset(c)); }
      }
      SameSignificant(sha, c.refs[i], s + LevelOffset(c), level + LevelOffset(c));
    }
  }

  lemma {:induction false} TallestMonotone(ps: seq<nat>, os: seq<nat>)
    requires |ps| == |os| && forall i :: 0 <= i < |ps| ==> ps[i] <= os[i]
    ensures Tallest(ps) <= Tallest(os)
  {
    if ps != [] { TallestMonotone(ps[..|ps| - 1], os[..|os| - 1]); }
  }

  /** The children of two cells answer alike at all levels up to `d`. */
  ghost predicate ChildrenAgree(sha: Sha, o: Cell, p: Cell, d: nat) {
    |p.refs| == |o.refs| && forall i :: 0 <= i < |o.refs| ==> Agree(sha, o.refs[i], p.refs[i], d)
  }

  /** The hasher is fed the same bytes when the lower hash and the children answer the same. */
  lemma {:induction false} SamePreimage(sha: Sha, o: Cell, p: Cell, level: nat)
    requires SameNode(o, p)
    requires p.Type() == o.Type() && !o.Type().PrunedBranch?
    requires level > 0 ==> HashAt(sha, p, level - 1) == HashAt(sha, o, level - 1)
    requires ChildDepths(p, level + LevelOffset(o)) == ChildDepths(o, level + LevelOffset(o))
    requires ChildHashes(sha, p, level + LevelOffset(o)) == ChildHashes(sha, o, level + LevelOffset(o))
    ensures Preimage(sha, p, level) == Preimage(sha, o, level)
  {
    assert p.Data() == o.Data() && p.D2() == o.D2();
    assert HashedD1(p, FromLevel(level)) == HashedD1(o, FromLevel(level));
  }

  lemma {:induction false} SameChildren(sha: Sha, o: Cell, p: Cell, d: nat, level: nat)
    requires ChildrenAgree(sha, o, p, d) && level <= d
    ensures ChildDepths(p, level) == ChildDepths(o, level)
    ensures ChildHashes(sha, p, level) == ChildHashes(sha, o, level)
  {
    forall i | 0 <= i < |o.refs|
      ensures DepthAt(p.refs[i], level) == DepthAt(o.refs[i], level)
      ensures HashAt(sha, p.refs[i], level) == HashAt(sha, o.refs[i], level)
    {
      assert AgreeAt(sha, o.refs[i], p.refs[i], d, level);
    }
  }

  lemma {:induction false} NoDeeperChildren(sha: Sha, o: Cell, p: Cell, d: nat, level: nat)
    requires ChildrenAgree(sha, o, p, d)
    ensures forall i :: 0 <= i < |o.refs| ==> ChildDepths(p, level)[i] <= ChildDepths(o, level)[i]
  {
    forall i | 0 <= i < |o.refs|
      ensures DepthAt(p.refs[i], level) <= DepthAt(o.refs[i], level)
    {
      assert AgreeAt(sha, o.refs[i], p.refs[i], d, level);
    }
  }

  lemma {:induction false} RebuiltAnswers(sha: Sha, o: Cell, p: Cell, d: nat, level: nat)
    requires SameNode(o, p) && p.Type() == o.Type() && !o.Type().PrunedBranch?
    requires ChildrenAgree(sha, o, p, d + LevelOffset(o)) && MaskGrew(o.mask, p.mask, d) && level <= d
    ensures HashAt(sha, p, level) == HashAt(sha, o, level) && DepthAt(p, level) == DepthAt(o, level)
  {
    hide Pack, Cell.Data, HashAt, DepthAt, Preimage;
    var s := o.mask.Significant(level);
    assert p.mask.Significant(level) == s;
    if s > 0 { RebuiltAnswers(sha, o, p, d, s - 1); }
    SameChildren(sha, o, p, d + LevelOffset(o), s + LevelOffset(o));
    SamePreimage(sha, o, p, s);
    AnswerAt(sha, o, level);
    AnswerAt(sha, p, level);
  }

  lemma {:induction false} AnswerAt(sha: Sha, c: Cell, level: nat)
    requires !c.Type().PrunedBranch?
    ensures var s := c.mask.Significant(level);
      && HashAt(sha, c, level) == sha(Preimage(sha, c, s))
      && DepthAt(c, level) == Tallest(ChildDepths(c, s + LevelOffset(c)))
  {
  }

  /** A pruned branch that is rebuilt as it was answers as it did. */
  lemma {:induction false} RebuiltPruned(sha: Sha, o: Cell, p: Cell, level: nat)
    requires p.exotic == o.exotic && p.bits == o.bits && p.refs == o.refs == [] && p.mask == o.mask
    requires o.Type().PrunedBranch?
    ensures HashAt(sha, p, level) == HashAt(sha, o, level) && DepthAt(p, level) == DepthAt(o, level)
  {
    assert Preimage(sha, p, 0) == Preimage(sha, o, 0);
  }

  lemma {:induction false} RebuiltDepth(sha: Sha, o: Cell, p: Cell, d: nat, level: nat)
    requires WellFormed(sha, o) && WellFormed(sha, p) && p.Type() == o.Type() && !o.Type().PrunedBranch?
    requires ChildrenAgree(sha, o, p, d)
    ensures DepthAt(p, level) <= DepthAt(o, level)
  {
    hide WellFormed, HashAt, DepthAt, Preimage, Tallest, ChildDepths, Pack;
    var at := level + LevelOffset(o);
    DepthFollowsChildren(sha, o, level);
    DepthFollowsChildren(sha, p, level);
    NoDeeperChildren(sha, o, p, d, at);
    TallestMonotone(ChildDepths(p, at), ChildDepths(o, at));
  }

  /** What a Merkle cell has stored of its children. */
  predicate SameAttested(sha: Sha, o: Cell, p: Cell) {
    && |p.refs| == |o.refs| && p.Data() == o.Data()
    && forall i :: 0 <= i < |o.refs| ==>
         HashAt(sha, p.refs[i], 0) == HashAt(sha, o.refs[i], 0) && DepthAt(p.refs[i], 0) == DepthAt(o.refs[i], 0)
  }

  lemma {:induction false} AgreeAttested(sha: Sha, o: Cell, p: Cell, d: nat)
    requires SameNode(o, p) && ChildrenAgree(sha, o, p, d)
    ensures SameAttested(sha, o, p)
  {
    hide HashAt, DepthAt, Pack;
    forall i | 0 <= i < |o.refs|
      ensures HashAt(sha, p.refs[i], 0) == HashAt(sha, o.refs[i], 0)
      ensures DepthAt(p.refs[i], 0) == DepthAt(o.refs[i], 0)
    {
      assert AgreeAt(sha, o.refs[i], p.refs[i], d, 0);
    }
  }

  /** The checks that an enclosing Merkle cell makes still succeed. */
  lemma {:induction false} RebuiltWellFormed(sha: Sha, o: Cell, p: Cell)
    requires WellFormed(sha, o) && Rebuilt(o, p) && SameAttested(sha, o, p)
    requires p.Type() == o.Type() && (o.refs == [] ==> p.mask == o.mask)
    ensures WellFormed(sha, p)
  {
    hide HashAt, DepthAt, Pack;
  }

  lemma {:induction false} RebuiltShallow(sha: Sha, o: Cell, p: Cell, d: nat)
    requires WellFormed(sha, o) && Shallow(o) && p.Type() == o.Type()
    requires ChildrenAgree(sha, o, p, d)
    ensures Shallow(p)
  {
    forall level | 0 <= level <= 3 && Computed(p, level)
      ensures ShallowAt(p, level)
    {
      if !o.Type().PrunedBranch? { RebuiltShallowAt(sha, o, p, d, level); }
    }
  }

  lemma {:induction false} RebuiltShallowAt(sha: Sha, o: Cell, p: Cell, d: nat, level: nat)
    requires WellFormed(sha, o) && Shallow(o) && p.Type() == o.Type() && !o.Type().PrunedBranch?
    requires ChildrenAgree(sha, o, p, d)
    ensures ShallowAt(p, level)
  {
    hide WellFormed, HashAt, DepthAt, Preimage, ChildDepths, Pack, AllShallow;
    var s, at := o.mask.Significant(level), level + LevelOffset(o);
    assert Computed(o, s) && ShallowAt(o, s);
    DepthFollowsChildren(sha, o, level);
    NoDeeperChildren(sha, o, p, d, at);
    StillShallow(ChildDepths(p, at), ChildDepths(o, at));
    assert LevelOffset(p) == LevelOffset(o);
  }

  lemma {:induction false} StillShallow(ps: seq<nat>, os: seq<nat>)
    requires |ps| == |os| && forall i :: 0 <= i < |ps| ==> ps[i] <= os[i]
    requires AllShallow(os)
    ensures AllShallow(ps)
  {
  }

  // ---------------------------------------------------------------- whole trees

  ghost predicate AllValid(sha: Sha, cells: seq<Cell>) {
    forall i :: 0 <= i < |cells| ==> Valid(sha, cells[i])
  }

  ghost predicate Kept(sha: Sha, o: Cell, p: Cell, d: nat) { Agree(sha, o, p, d) && Valid(sha, p) }

  /** Pruning keeps every answer up to level `d`, and the pruned tree is still accepted. */
  lemma {:induction false} PruningInvariance(sha: Sha, o: Cell, p: Cell, d: nat)
    requires Valid(sha, o) && PrunedFrom(sha, o, p, d)
    ensures Agree(sha, o, p, d) && Valid(sha, p)
    decreases o, 1
  {
    if Prunable(o, d) && p == PrunedCell(sha, o, d) {
      PrunedBranchAgrees(sha, o, d);
    } else {
      ChildrenInvariance(sha, o, p, d + LevelOffset(o), |o.refs|);
      assert p.refs[..|o.refs|] == p.refs;
      RebuiltAgrees(sha, o, p, d);
    }
  }

  lemma {:induction false} ChildrenInvariance(sha: Sha, o: Cell, p: Cell, d: nat, n: nat)
    requires n <= |o.refs| == |p.refs|
    requires forall i :: 0 <= i < |o.refs| ==> Valid(sha, o.refs[i]) && PrunedFrom(sha, o.refs[i], p.refs[i], d)
    ensures forall i :: 0 <= i < n ==> Kept(sha, o.refs[i], p.refs[i], d)
    decreases o, 0, n
  {
    hide WellFormed, HashAt, DepthAt, BuiltMask, PrunedCell;
    if n > 0 {
      ChildrenInvariance(sha, o, p, d, n - 1);
      PruningInvariance(sha, o.refs[n - 1], p.refs[n - 1], d);
    }
  }

  lemma {:induction false} GrownChildren(sha: Sha, o: Cell, p: Cell, d: nat)
    requires ChildrenAgree(sha, o, p, d)
    ensures |p.refs| == |o.refs| && forall i :: 0 <= i < |o.refs| ==> MaskGrew(o.refs[i].mask, p.refs[i].mask, d)
  {
  }

  lemma {:induction false} RebuiltAgrees(sha: Sha, o: Cell, p: Cell, d: nat)
    requires Finalizable(sha, o) && o.Fits() && Rebuilt(o, p)
    requires ChildrenAgree(sha, o, p, d + LevelOffset(o)) && AllValid(sha, p.refs)
    ensures Agree(sha, o, p, d)
    ensures Valid(sha, p)
  {
    hide WellFormed, HashAt, DepthAt, Shallow, MaskGrew, ChildrenAgree, BuiltMask, Pack;
    var below := d + LevelOffset(o);
    GrownChildren(sha, o, p, below);
    RebuiltMask(sha, o, p, d);
    AgreeAttested(sha, o, p, below);
    RebuiltWellFormed(sha, o, p);
    RebuiltShallow(sha, o, p, below);
    forall level: nat
      ensures AgreeAt(sha, o, p, d, level)
    {
      if o.Type().PrunedBranch? {
        RebuiltPruned(sha, o, p, level);
      } else {
        if level <= d { RebuiltAnswers(sha, o, p, d, level); }
        RebuiltDepth(sha, o, p, below, level);
      }
    }
  }
}
