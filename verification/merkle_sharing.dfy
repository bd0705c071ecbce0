/** A cell that occurs at two Merkle depths: the builder shares it, and the proof it builds is not accepted. */
module MerkleSharing {
  import opened Cells
  import opened CellHash
  import opened CellGraph
  import opened Pruning
  import opened PruningInvariance
  import opened MerkleBuild
  import opened MerkleDepths
  import opened MerkleProofs
  import opened MerkleNecessity

  const LEAF := Cell(false, false, NO_LEVELS, [], [])

  /** The cell that the filter skips. */
  const SKIPPED := Cell(false, false, NO_LEVELS, [], [LEAF])

  /** The cell that occurs twice. */
  const SHARED := Cell(false, false, NO_LEVELS, [true], [SKIPPED])

  /** The second occurrence lies under a Merkle proof. */
  function Inner(sha: Sha): Cell { ProofCell(HashAt(sha, SHARED, 0), DepthAt(SHARED, 0), SHARED) }

  function Root(sha: Sha): Cell { Cell(false, false, NO_LEVELS, [], [SHARED, Inner(sha)]) }

  function SkipOne(sha: Sha): Filter { SkipOnly(ReprHash(sha, SKIPPED)) }

  const LEVEL_ONE := LevelMask(true, false, false)

  function SharedBuilt(sha: Sha): Cell { Cell(false, false, LEVEL_ONE, [true], [PrunedCell(sha, SKIPPED, 0)]) }

  function InnerBuilt(sha: Sha): Cell { Cell(true, false, NO_LEVELS, Inner(sha).bits, [SharedBuilt(sha)]) }

  function RootBuilt(sha: Sha): Cell { Cell(false, false, LEVEL_ONE, [], [SharedBuilt(sha), InnerBuilt(sha)]) }

  /** The hash does not collide on the few inputs that matter here. */
  ghost predicate Distinct(sha: Sha) {
    && ReprHash(sha, SHARED) != ReprHash(sha, SKIPPED)
    && ReprHash(sha, Inner(sha)) != ReprHash(sha, SHARED)
    && ReprHash(sha, Inner(sha)) != ReprHash(sha, SKIPPED)
    && NoCollision(sha, Preimage(sha, SharedBuilt(sha), 1), Preimage(sha, SHARED, 0))
    && NoCollision(sha, Preimage(sha, InnerBuilt(sha), 0), Preimage(sha, Inner(sha), 0))
    && NoCollision(sha, Preimage(sha, RootBuilt(sha), 0), Preimage(sha, Root(sha), 0))
  }

  predicate NoCollision(sha: Sha, a: seq<byte>, b: seq<byte>) { sha(a) == sha(b) ==> a == b }

  // ---------------------------------------------------------------- the original is valid

  lemma {:induction false} PlainShallow(c: Cell)
    requires !c.exotic && c.mask == NO_LEVELS
    requires forall i :: 0 <= i < |c.refs| ==> DepthAt(c.refs[i], 0) < MAX_DEPTH
    ensures Shallow(c)
  {
    hide DepthAt;
  }

  lemma {:induction false} SharedValid(sha: Sha)
    ensures Valid(sha, SHARED) && Valid(sha, SKIPPED) && DepthAt(SHARED, 0) == 2 && DepthAt(SHARED, 1) == 2
  {
    hide HashAt, Shallow, Pack;
    PlainShallow(LEAF);
    assert ChildDepths(LEAF, 0) == [] && DepthAt(LEAF, 0) == 0;
    PlainShallow(SKIPPED);
    assert ChildDepths(SKIPPED, 0) == [0] && [0][..0] == [] && DepthAt(SKIPPED, 0) == 1;
    PlainShallow(SHARED);
    assert ChildDepths(SHARED, 0) == [1] && [1][..0] == [] && DepthAt(SHARED, 0) == 2;
    assert SHARED.mask.Significant(1) == 0;
    assert Valid(sha, LEAF);
    assert [LEAF][..0] == [] && MaskUnion([LEAF]) == NO_LEVELS;
    assert Valid(sha, SKIPPED);
    assert [SKIPPED][..0] == [] && MaskUnion([SKIPPED]) == NO_LEVELS;
  }

  lemma {:induction false} InnerDepth(sha: Sha)
    ensures DepthAt(Inner(sha), 0) == 3
  {
    hide HashAt, Pack;
    SharedValid(sha);
    var m := Inner(sha);
    AnswerCases(sha, m, 0);
    assert ChildDepths(m, 1) == [2] && [2][..0] == [];
  }

  lemma {:induction false} InnerFormed(sha: Sha)
    ensures WellFormed(sha, Inner(sha))
  {
    hide HashAt, DepthAt, Pack;
    SharedValid(sha);
    ProofData(HashAt(sha, SHARED, 0), 2, SHARED);
    assert [SHARED][..0] == [] && MaskUnion([SHARED]) == NO_LEVELS;
  }

  lemma {:induction false} InnerValid(sha: Sha)
    ensures Valid(sha, Inner(sha)) && DepthAt(Inner(sha), 0) == 3
  {
    hide HashAt, DepthAt, Pack, Shallow, WellFormed;
    SharedValid(sha);
    InnerDepth(sha);
    InnerFormed(sha);
    ProofData(HashAt(sha, SHARED, 0), 2, SHARED);
    InnerShallow(Inner(sha));
  }

  lemma {:induction false} InnerShallow(m: Cell)
    requires m.exotic && |m.refs| == 1 && m.mask == NO_LEVELS && DepthAt(m.refs[0], 1) < MAX_DEPTH
    ensures Shallow(m)
  {
    hide DepthAt;
  }

  lemma {:induction false} RootValid(sha: Sha)
    ensures Valid(sha, Root(sha)) && ReprHash(sha, Root(sha)) == HashAt(sha, Root(sha), 0)
  {
    hide HashAt, Pack, Shallow, DepthAt;
    SharedValid(sha);
    InnerValid(sha);
    PlainShallow(Root(sha));
    var refs := [SHARED, Inner(sha)];
    assert refs[..1] == [SHARED] && [SHARED][..0] == [];
    assert MaskUnion(refs) == NO_LEVELS;
    SameSignificant(sha, Root(sha), 0, MAX_LEVEL);
  }

  // ---------------------------------------------------------------- what is built

  lemma {:induction false} SharedIsPruned(sha: Sha)
    ensures PrunedFrom(sha, SHARED, SharedBuilt(sha), 0)
    ensures Agree(sha, SHARED, SharedBuilt(sha), 0) && Valid(sha, SharedBuilt(sha))
    ensures RebuildCell(sha, SHARED, [PrunedCell(sha, SKIPPED, 0)]) == Ok(SharedBuilt(sha))
  {
    hide HashAt, DepthAt, Pack, Valid;
    SharedValid(sha);
    var y := PrunedCell(sha, SKIPPED, 0);
    assert [y][..0] == [] && MaskUnion([y]) == LEVEL_ONE;
    assert BuiltMask(false, [true], [y]) == LEVEL_ONE;
    assert PrunedFrom(sha, SKIPPED, y, 0);
    assert Rebuilt(SHARED, SharedBuilt(sha));
    PruningInvariance.PruningInvariance(sha, SHARED, SharedBuilt(sha), 0);
    ValidFinal(sha, SharedBuilt(sha));
  }

  lemma {:induction false} ValidFinal(sha: Sha, c: Cell)
    requires Valid(sha, c)
    ensures Finalizable(sha, c)
  {
    hide Finalizable;
  }

  /** The Merkle proof inside is rebuilt over the shared cell without complaint. */
  lemma {:induction false} InnerRebuilt(sha: Sha)
    ensures RebuildCell(sha, Inner(sha), [SharedBuilt(sha)]) == Ok(InnerBuilt(sha))
    ensures DepthAt(InnerBuilt(sha), 0) < MAX_DEPTH
  {
    hide HashAt, Pack, Shallow, Valid;
    SharedIsPruned(sha);
    SharedValid(sha);
    var x, m := SharedBuilt(sha), InnerBuilt(sha);
    ProofData(HashAt(sha, SHARED, 0), 2, SHARED);
    assert AgreeAt(sha, SHARED, x, 0, 0) && AgreeAt(sha, SHARED, x, 0, 1);
    assert [x][..0] == [] && MaskUnion([x]) == LEVEL_ONE;
    assert ChildDepths(m, 1) == [DepthAt(x, 1)] && ChildDepths(m, 1)[..0] == [];
    InnerShallow(m);
  }

  lemma {:induction false} RootRebuilt(sha: Sha)
    ensures RebuildCell(sha, Root(sha), [SharedBuilt(sha), InnerBuilt(sha)]) == Ok(RootBuilt(sha))
  {
    hide HashAt, DepthAt, Pack, Valid, Shallow, PrunedCell, PrunedFrom, Preimage;
    InnerRebuilt(sha);
    SharedIsPruned(sha);
    SharedValid(sha);
    var x, m, r := SharedBuilt(sha), InnerBuilt(sha), RootBuilt(sha);
    var refs := [x, m];
    assert refs[..1] == [x] && [x][..0] == [] && MaskUnion(refs) == LEVEL_ONE;
    assert AgreeAt(sha, SHARED, x, 0, 0) && AgreeAt(sha, SHARED, x, 0, 1);
    InnerDepths(sha);
    RootShallow(r);
  }

  lemma {:induction false} InnerDepths(sha: Sha)
    ensures DepthAt(InnerBuilt(sha), 0) == DepthAt(InnerBuilt(sha), 1)
  {
    hide HashAt, Pack;
    SameSignificant(sha, InnerBuilt(sha), 0, 1);
  }

  lemma {:induction false} RootShallow(r: Cell)
    requires !r.exotic && r.mask == LEVEL_ONE
    requires forall i, level :: 0 <= i < |r.refs| && 0 <= level <= 1 ==> DepthAt(r.refs[i], level) < MAX_DEPTH
    ensures Shallow(r)
  {
    hide DepthAt;
    forall level | 0 <= level <= 3 && Computed(r, level)
      ensures ShallowAt(r, level)
    {
      assert level <= 1;
      forall i | 0 <= i < |r.refs|
        ensures ChildDepths(r, level)[i] < MAX_DEPTH
      {
        assert DepthAt(r.refs[i], level) < MAX_DEPTH;
      }
    }
  }

  lemma {:induction false} BuiltRoot(sha: Sha)
    requires Distinct(sha)
    ensures BuildProofCell(sha, SkipOne(sha), false, true, Root(sha)) == Ok(RootBuilt(sha))
  {
    hide ReprHash, RebuildCell, PrunedCell, SharedBuilt, InnerBuilt, RootBuilt, Preimage;
    var f, y := SkipOne(sha), PrunedCell(sha, SKIPPED, 0);
    SharedIsPruned(sha);
    InnerRebuilt(sha);
    RootRebuilt(sha);
    var done := map[ReprHash(sha, SHARED) := SharedBuilt(sha)];
    assert BuildRefs(sha, f, false, map[], SHARED, 0, 0, []) == Ok(([y], map[])) by {
      assert [] + [y] == [y];
    }
    assert BuildNode(sha, f, false, map[], SHARED, 0) == Ok((SharedBuilt(sha), done));
    InnerNode(sha, done);
    var all := [SharedBuilt(sha), InnerBuilt(sha)];
    var done' := done[ReprHash(sha, Inner(sha)) := InnerBuilt(sha)];
    assert BuildRefs(sha, f, false, done', Root(sha), 0, 2, all) == Ok((all, done'));
    assert [SharedBuilt(sha)] + [InnerBuilt(sha)] == all && [] + [SharedBuilt(sha)] == [SharedBuilt(sha)];
    assert BuildRefs(sha, f, false, done, Root(sha), 0, 1, [SharedBuilt(sha)]) == Ok((all, done'));
    assert BuildRefs(sha, f, false, map[], Root(sha), 0, 0, []) == Ok((all, done'));
  }

  lemma {:induction false} InnerNode(sha: Sha, done: Cache)
    requires done == map[ReprHash(sha, SHARED) := SharedBuilt(sha)]
    ensures BuildNode(sha, SkipOne(sha), false, done, Inner(sha), 0) ==
      Ok((InnerBuilt(sha), done[ReprHash(sha, Inner(sha)) := InnerBuilt(sha)]))
  {
    hide ReprHash, RebuildCell, PrunedCell, SharedBuilt, InnerBuilt, Preimage;
    InnerRebuilt(sha);
    var x := SharedBuilt(sha);
    assert [] + [x] == [x];
    assert BuildRefs(sha, SkipOne(sha), false, done, Inner(sha), 1, 1, [x]) == Ok(([x], done));
    assert BuildRefs(sha, SkipOne(sha), false, done, Inner(sha), 1, 0, []) == Ok(([x], done));
  }

  // ---------------------------------------------------------------- why it is not a proof

  /** Inputs of the hash that end in different digests differ. */
  lemma {:induction false} LastDiffers(a: seq<byte>, b: seq<byte>, x: Digest, y: Digest)
    requires x != y
    ensures a + x != b + y
  {
    assert x == (a + x)[|a + x| - 32..] && y == (b + y)[|b + y| - 32..];
  }

  lemma {:induction false} HashesLast(hashes: seq<Digest>)
    requires hashes != []
    ensures HashesBytes(hashes) == HashesBytes(hashes[..|hashes| - 1]) + hashes[|hashes| - 1]
  {
  }

  lemma {:induction false} PreimageLast(sha: Sha, c: Cell, level: nat) returns (head: seq<byte>)
    requires c.refs != [] && !c.Type().PrunedBranch?
    ensures Preimage(sha, c, level) == head + HashAt(sha, c.refs[|c.refs| - 1], level + LevelOffset(c))
  {
    hide HashAt, DepthAt, Pack, HashesBytes, DepthsBytes, HashedD1, Cell.D2;
    var at := level + LevelOffset(c);
    var hashes := ChildHashes(sha, c, at);
    HashesLast(hashes);
    head := [HashedD1(c, FromLevel(level)), c.D2()]
      + (if level == 0 then c.Data() else HashAt(sha, c, level - 1))
      + DepthsBytes(ChildDepths(c, at)) + HashesBytes(hashes[..|hashes| - 1]);
  }

  lemma {:induction false} PreimageFirst(sha: Sha, c: Cell, level: nat)
    requires !c.Type().PrunedBranch?
    ensures |Preimage(sha, c, level)| > 0 && Preimage(sha, c, level)[0] == HashedD1(c, FromLevel(level))
  {
    hide HashAt, DepthAt, Pack, HashesBytes, DepthsBytes, HashedD1, Cell.D2;
  }

  /** One level up the shared cell hashes its pruned child's own hash. */
  lemma {:induction false} SharedDiffers(sha: Sha)
    requires Distinct(sha)
    ensures HashAt(sha, SharedBuilt(sha), 1) != HashAt(sha, SHARED, 1)
  {
    hide HashAt, DepthAt, Pack, Preimage, PrunedCell;
    var x := SharedBuilt(sha);
    AnswerCases(sha, x, 1);
    AnswerCases(sha, SHARED, 1);
    PreimageFirst(sha, x, 1);
    PreimageFirst(sha, SHARED, 0);
    assert HashedD1(x, FromLevel(1)) == 33 && HashedD1(SHARED, FromLevel(0)) == 1;
  }

  lemma {:induction false} InnerDiffers(sha: Sha)
    requires Distinct(sha)
    ensures HashAt(sha, InnerBuilt(sha), 0) != HashAt(sha, Inner(sha), 0)
  {
    hide Preimage, Pack, DepthAt;
    SharedDiffers(sha);
    var m, o := InnerBuilt(sha), Inner(sha);
    var a := PreimageLast(sha, m, 0);
    var b := PreimageLast(sha, o, 0);
    LastDiffers(a, b, HashAt(sha, SharedBuilt(sha), 1), HashAt(sha, SHARED, 1));
    AnswerCases(sha, m, 0);
    AnswerCases(sha, o, 0);
  }

  lemma {:induction false} RootDiffers(sha: Sha)
    requires Distinct(sha)
    ensures HashAt(sha, RootBuilt(sha), 0) != HashAt(sha, Root(sha), 0)
  {
    hide Preimage, Pack, DepthAt, HashAt;
    InnerDiffers(sha);
    var p, o := RootBuilt(sha), Root(sha);
    var a := PreimageLast(sha, p, 0);
    var b := PreimageLast(sha, o, 0);
    LastDiffers(a, b, HashAt(sha, InnerBuilt(sha), 0), HashAt(sha, Inner(sha), 0));
    AnswerCases(sha, p, 0);
    AnswerCases(sha, o, 0);
  }

  /** For this valid root without levels the builder succeeds, but the proof is not accepted. */
  lemma {:induction false} SharedAcrossDepths(sha: Sha)
    requires Distinct(sha)
    ensures Valid(sha, Root(sha)) && Root(sha).mask == NO_LEVELS
    ensures var r := BuildProofCell(sha, SkipOne(sha), false, true, Root(sha));
      r.Ok? && !WellFormed(sha, ProofCell(ReprHash(sha, Root(sha)), ReprDepth(Root(sha)), r.value))
  {
    hide HashAt, DepthAt, Pack, BuildProofCell, SkipOne, Distinct, Valid;
    RootValid(sha);
    BuiltRoot(sha);
    RootDiffers(sha);
    RootDepth(sha, Root(sha));
    ProofData(ReprHash(sha, Root(sha)), ReprDepth(Root(sha)), RootBuilt(sha));
  }

  /** The cell under no Merkle cell and under one has a child that could be pruned. */
  lemma {:induction false} RootUnsafe(sha: Sha)
    ensures !Safe(sha, false, Root(sha))
  {
    hide HashAt, DepthAt, Pack;
    var root, inner := Root(sha), Inner(sha);
    assert root.refs[0] == SHARED && root.refs[1] == inner && inner.refs[0] == SHARED;
    assert Lies(SHARED, 0, SHARED, 0) && Lies(SHARED, 1, SHARED, 1);
    assert LevelOffset(root) == 0 && LevelOffset(inner) == 1;
    assert Lies(root, 0, SHARED, 0);
    assert Lies(inner, 0, SHARED, 1);
    assert Lies(root, 0, SHARED, 1);
    assert Heavy(false, SHARED.refs[0]);
  }
}
