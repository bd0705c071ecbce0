/** Cell trees as graphs: sizes, reachable cells, and trees that differ in storage flags only. */
module CellGraph {
  import opened Cells
  import opened CellHash

  /** Number of nodes of the tree. */
  function Weight(c: Cell): nat
    decreases c, |c.refs| + 1
  {
    1 + WeightRefs(c, 0)
  }

  function WeightRefs(c: Cell, k: nat): nat
    requires k <= |c.refs|
    decreases c, |c.refs| - k
  {
    if k == |c.refs| then 0 else Weight(c.refs[k]) + WeightRefs(c, k + 1)
  }

  lemma {:induction false} ChildWeight(c: Cell, k: nat, j: nat)
    requires j <= k < |c.refs|
    ensures Weight(c.refs[k]) <= WeightRefs(c, j) && (j == 0 ==> Weight(c.refs[k]) < Weight(c))
    decreases |c.refs| - j
  {
    if j < k { ChildWeight(c, k, j + 1); }
  }

  // ---------------------------------------------------------------- iterators on a stack

  /** Iterates over the children of a cell from `next` up to `max`. */
  datatype RefsIter = RefsIter(cell: Cell, next: nat, max: nat) {
    predicate Ok() { next <= max <= |cell.refs| }

    function Left(): seq<Cell>
      requires Ok()
    {
      cell.refs[next..max]
    }
  }

  function From(c: Cell, k: nat): RefsIter { RefsIter(c, k, |c.refs|) }

  function References(c: Cell): RefsIter { From(c, 0) }

  predicate AllOk(stack: seq<RefsIter>) {
    forall i :: 0 <= i < |stack| ==> stack[i].Ok()
  }

  /** Bound on the steps a stack of iterators still needs, however much of the graph is shared. */
  function StackWeight(stack: seq<RefsIter>): nat
    requires AllOk(stack)
  {
    if stack == [] then 0
    else
      var top := stack[|stack| - 1];
      1 + 2 * WeightRefs(top.cell, top.next) + StackWeight(stack[..|stack| - 1])
  }

  lemma {:induction false} StackWeightTop(below: seq<RefsIter>, top: RefsIter)
    requires AllOk(below) && top.Ok()
    ensures StackWeight(below + [top]) == 1 + 2 * WeightRefs(top.cell, top.next) + StackWeight(below)
  {
    assert (below + [top])[..|below|] == below;
  }

  /** Taking one child, and even entering it, brings the end closer. */
  lemma {:induction false} StackWeightStep(below: seq<RefsIter>, top: RefsIter)
    requires AllOk(below) && top.Ok() && top.next < top.max
    ensures var advanced := below + [top.(next := top.next + 1)];
      && StackWeight(advanced) < StackWeight(below + [top])
      && StackWeight(advanced + [References(top.cell.refs[top.next])]) < StackWeight(below + [top])
  {
    hide StackWeight;
    var child, advanced := top.cell.refs[top.next], top.(next := top.next + 1);
    StackWeightTop(below, top);
    StackWeightTop(below, advanced);
    StackWeightTop(below + [advanced], References(child));
    assert Weight(child) == 1 + WeightRefs(child, 0);
  }

  lemma {:induction false} StackWeightPop(below: seq<RefsIter>, top: RefsIter)
    requires AllOk(below) && top.Ok()
    ensures StackWeight(below) < StackWeight(below + [top])
  {
    hide StackWeight;
    StackWeightTop(below, top);
  }

  // ---------------------------------------------------------------- reachable cells

  /** The cell and everything below it. */
  function Reach(c: Cell): set<Cell>
    decreases c, |c.refs| + 1
  {
    {c} + ReachRefs(c, 0)
  }

  function ReachRefs(c: Cell, k: nat): set<Cell>
    requires k <= |c.refs|
    decreases c, |c.refs| - k
  {
    if k == |c.refs| then {} else Reach(c.refs[k]) + ReachRefs(c, k + 1)
  }

  function ReachAll(cells: seq<Cell>): set<Cell> {
    if cells == [] then {} else ReachAll(cells[..|cells| - 1]) + Reach(cells[|cells| - 1])
  }

  /** Cells closed under references. */
  ghost predicate Closed(u: set<Cell>) {
    forall x, i :: x in u && 0 <= i < |x.refs| ==> x.refs[i] in u
  }

  lemma {:induction false} ReachClosed(c: Cell)
    ensures Closed(Reach(c)) && c in Reach(c)
    decreases c, |c.refs| + 1
  {
    ReachRefsClosed(c, 0);
  }

  lemma {:induction false} ReachRefsClosed(c: Cell, k: nat)
    requires k <= |c.refs|
    ensures Closed(ReachRefs(c, k)) && forall i :: k <= i < |c.refs| ==> c.refs[i] in ReachRefs(c, k)
    decreases c, |c.refs| - k
  {
    if k < |c.refs| {
      ReachClosed(c.refs[k]);
      ReachRefsClosed(c, k + 1);
    }
  }

  lemma {:induction false} ReachAllClosed(cells: seq<Cell>)
    ensures Closed(ReachAll(cells)) && forall i :: 0 <= i < |cells| ==> cells[i] in ReachAll(cells)
  {
    hide Reach;
    if cells != [] {
      ReachAllClosed(cells[..|cells| - 1]);
      ReachClosed(cells[|cells| - 1]);
    }
  }

  /** `Reach` is the least closed set that holds the cell. */
  lemma {:induction false} ReachLeast(c: Cell, u: set<Cell>)
    requires Closed(u) && c in u
    ensures Reach(c) <= u
    decreases c, |c.refs| + 1
  {
    ReachRefsLeast(c, 0, u);
  }

  lemma {:induction false} ReachRefsLeast(c: Cell, k: nat, u: set<Cell>)
    requires k <= |c.refs| && Closed(u) && c in u
    ensures ReachRefs(c, k) <= u
    decreases c, |c.refs| - k
  {
    if k < |c.refs| {
      ReachLeast(c.refs[k], u);
      ReachRefsLeast(c, k + 1, u);
    }
  }

  lemma {:induction false} ReachAllLeast(cells: seq<Cell>, u: set<Cell>)
    requires Closed(u) && forall i :: 0 <= i < |cells| ==> cells[i] in u
    ensures ReachAll(cells) <= u
  {
    hide Reach;
    if cells != [] {
      ReachAllLeast(cells[..|cells| - 1], u);
      ReachLeast(cells[|cells| - 1], u);
    }
  }

  lemma {:induction false} ReachValid(sha: Sha, c: Cell)
    requires Valid(sha, c)
    ensures forall x :: x in Reach(c) ==> Valid(sha, x)
    decreases c, |c.refs| + 1
  {
    hide WellFormed, Shallow;
    ReachRefsValid(sha, c, 0);
  }

  lemma {:induction false} ReachRefsValid(sha: Sha, c: Cell, k: nat)
    requires k <= |c.refs| && forall i :: 0 <= i < |c.refs| ==> Valid(sha, c.refs[i])
    ensures forall x :: x in ReachRefs(c, k) ==> Valid(sha, x)
    decreases c, |c.refs| - k
  {
    hide Valid;
    if k < |c.refs| {
      ReachValid(sha, c.refs[k]);
      ReachRefsValid(sha, c, k + 1);
    }
  }

  lemma {:induction false} ReachAllValid(sha: Sha, cells: seq<Cell>)
    requires forall i :: 0 <= i < |cells| ==> Valid(sha, cells[i])
    ensures forall x :: x in ReachAll(cells) ==> Valid(sha, x)
  {
    hide Valid, Reach;
    if cells != [] {
      ReachAllValid(sha, cells[..|cells| - 1]);
      ReachValid(sha, cells[|cells| - 1]);
    }
  }

  // ---------------------------------------------------------------- storage flags

  /** The tree without any store-hashes flag: what representation hashes can tell apart. */
  function Erase(c: Cell): Cell {
    Cell(c.exotic, false, c.mask, c.bits, seq(|c.refs|, i requires 0 <= i < |c.refs| => Erase(c.refs[i])))
  }

  lemma {:induction false} EraseAnswers(sha: Sha, c: Cell, level: nat)
    ensures HashAt(sha, Erase(c), level) == HashAt(sha, c, level)
    ensures DepthAt(Erase(c), level) == DepthAt(c, level)
    decreases c, level + 1
  {
    hide Pack, DepthsBytes, HashesBytes, Tallest, Preimage, HashAt, DepthAt;
    var e := Erase(c);
    var s := c.mask.Significant(level);
    var at := if c.Type().PrunedBranch? then LevelOffset(c) else s + LevelOffset(c);
    EraseChildren(sha, c, at);
    if s > 0 && !c.Type().PrunedBranch? { EraseAnswers(sha, c, s - 1); }
    ErasePreimage(sha, c, if c.Type().PrunedBranch? then 0 else s);
    AnswerCases(sha, c, level);
    AnswerCases(sha, e, level);
    assert StoredHash(e, c.mask.HashIndex(level)) == StoredHash(c, c.mask.HashIndex(level)) by { assert e.Data() == c.Data(); }
    assert StoredDepth(e, c.mask.HashIndex(level)) == StoredDepth(c, c.mask.HashIndex(level)) by { assert e.Data() == c.Data(); }
  }

  lemma {:induction false} AnswerCases(sha: Sha, c: Cell, level: nat)
    ensures !c.Type().PrunedBranch? ==>
      var s := c.mask.Significant(level);
      && HashAt(sha, c, level) == sha(Preimage(sha, c, s))
      && DepthAt(c, level) == Tallest(ChildDepths(c, s + LevelOffset(c)))
    ensures c.Type().PrunedBranch? ==>
      var i := c.mask.HashIndex(level);
      && HashAt(sha, c, level) == (if i == c.mask.Level() then sha(Preimage(sha, c, 0)) else StoredHash(c, i))
      && DepthAt(c, level) == (if i == c.mask.Level() then 0 else StoredDepth(c, i))
  {
  }

  lemma {:induction false} EraseChildren(sha: Sha, c: Cell, level: nat)
    ensures ChildHashes(sha, Erase(c), level) == ChildHashes(sha, c, level)
    ensures ChildDepths(Erase(c), level) == ChildDepths(c, level)
    decreases c, 0
  {
    hide HashAt, DepthAt;
    forall i | 0 <= i < |c.refs|
      ensures HashAt(sha, Erase(c.refs[i]), level) == HashAt(sha, c.refs[i], level)
      ensures DepthAt(Erase(c.refs[i]), level) == DepthAt(c.refs[i], level)
    {
      EraseAnswers(sha, c.refs[i], level);
    }
  }

  lemma {:induction false} ErasePreimage(sha: Sha, c: Cell, level: nat)
    requires ChildHashes(sha, Erase(c), level + LevelOffset(c)) == ChildHashes(sha, c, level + LevelOffset(c))
    requires ChildDepths(Erase(c), level + LevelOffset(c)) == ChildDepths(c, level + LevelOffset(c))
    requires level > 0 ==> HashAt(sha, Erase(c), level - 1) == HashAt(sha, c, level - 1)
    ensures Preimage(sha, Erase(c), level) == Preimage(sha, c, level)
  {
    hide Pack, DepthsBytes, HashesBytes, HashAt, ChildHashes, ChildDepths;
  }

  lemma {:induction false} EraseMask(cells: seq<Cell>, erased: seq<Cell>)
    requires |cells| == |erased| && forall i :: 0 <= i < |cells| ==> erased[i].mask == cells[i].mask
    ensures MaskUnion(erased) == MaskUnion(cells)
  {
    if cells != [] { EraseMask(cells[..|cells| - 1], erased[..|cells| - 1]); }
  }

  /** The finalizer does not look at the flags. */
  lemma {:induction false} EraseFinalizable(sha: Sha, c: Cell)
    ensures Finalizable(sha, Erase(c)) <==> Finalizable(sha, c)
  {
    hide HashAt, DepthAt, Pack, AllShallow, ChildDepths;
    var e := Erase(c);
    assert e.Data() == c.Data();
    assert forall i :: 0 <= i < |c.refs| ==> e.refs[i] == Erase(c.refs[i]);
    EraseMask(c.refs, e.refs);
    forall i | 0 <= i < |c.refs|
      ensures HashAt(sha, e.refs[i], 0) == HashAt(sha, c.refs[i], 0) && DepthAt(e.refs[i], 0) == DepthAt(c.refs[i], 0)
    {
      EraseAnswers(sha, c.refs[i], 0);
    }
    forall level | 0 <= level <= 3
      ensures Computed(e, level) == Computed(c, level) && ShallowAt(e, level) == ShallowAt(c, level)
    {
      EraseChildren(sha, c, level + LevelOffset(c));
    }
  }

  lemma {:induction false} EraseWeight(c: Cell)
    ensures Weight(Erase(c)) == Weight(c)
    decreases c, |c.refs| + 1
  {
    EraseWeightRefs(c, 0);
  }

  lemma {:induction false} EraseWeightRefs(c: Cell, k: nat)
    requires k <= |c.refs|
    ensures WeightRefs(Erase(c), k) == WeightRefs(c, k)
    decreases c, |c.refs| - k
  {
    if k < |c.refs| {
      EraseWeight(c.refs[k]);
      EraseWeightRefs(c, k + 1);
    }
  }

  /** Flags aside, two cells of the set with the same representation hash are the same tree. */
  ghost predicate CollisionFree(sha: Sha, u: set<Cell>) {
    forall x, y :: x in u && y in u && ReprHash(sha, x) == ReprHash(sha, y) ==> Erase(x) == Erase(y)
  }

  lemma {:induction false} SameErasure(sha: Sha, x: Cell, y: Cell)
    requires Erase(x) == Erase(y)
    ensures ReprHash(sha, x) == ReprHash(sha, y) && Weight(x) == Weight(y)
  {
    hide HashAt;
    EraseAnswers(sha, x, MAX_LEVEL);
    EraseAnswers(sha, y, MAX_LEVEL);
    EraseWeight(x);
    EraseWeight(y);
  }
}
