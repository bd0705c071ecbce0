/** Numbering the cells of a bag: children first, every distinct cell once. */
module BocFill {
  import opened Cells
  import opened CellHash
  import opened CellGraph

  /** What filling a header with cells has accumulated. */
  datatype Numbering = Numbering(indices: map<Digest, nat>, cells: seq<Cell>, dataSize: nat, refCount: nat)

  /** No number is out of range. */
  ghost predicate Bounded(st: Numbering) {
    forall h :: h in st.indices ==> st.indices[h] < |st.cells|
  }

  /** The cell has a number below `bound`. */
  ghost predicate KnownAt(sha: Sha, st: Numbering, c: Cell, bound: nat) {
    ReprHash(sha, c) in st.indices && st.indices[ReprHash(sha, c)] < bound
  }

  ghost predicate Known(sha: Sha, st: Numbering, cells: seq<Cell>, bound: nat) {
    forall k :: 0 <= k < |cells| ==> KnownAt(sha, st, cells[k], bound)
  }

  const EMPTY := Numbering(map[], [], 0, 0)

  /** Data bytes as the second descriptor byte tells them. */
  function ByteLen(c: Cell): nat { c.D2() % 2 + c.D2() / 2 }

  /** Data bytes of a cell together with the hashes and depths it may carry. */
  function ByteLenFull(c: Cell, withoutHashes: bool): nat {
    ByteLen(c) + if !withoutHashes && c.storeHashes then (c.mask.Level() + 1) * 34 else 0
  }

  lemma {:induction false} ByteLenOfData(c: Cell)
    requires c.Fits()
    ensures ByteLen(c) == |c.Data()| <= 128 && |c.refs| % 8 == |c.refs|
  {
  }

  /** Gives a cell the next number. */
  function Push(sha: Sha, st: Numbering, c: Cell, withoutHashes: bool): Numbering {
    Numbering(st.indices[ReprHash(sha, c) := |st.cells|], st.cells + [c],
              st.dataSize + ByteLenFull(c, withoutHashes), st.refCount + |c.refs| % 8)
  }

  /** Numbers everything below a cell that has no number yet, then the cell. */
  function Number(sha: Sha, st: Numbering, c: Cell, w: bool): Numbering
    decreases c, |c.refs| + 1
  {
    Push(sha, NumberRefs(sha, st, c, 0, w), c, w)
  }

  function NumberRefs(sha: Sha, st: Numbering, c: Cell, k: nat, w: bool): Numbering
    requires k <= |c.refs|
    decreases c, |c.refs| - k
  {
    if k == |c.refs| then st
    else if ReprHash(sha, c.refs[k]) in st.indices then NumberRefs(sha, st, c, k + 1, w)
    else NumberRefs(sha, Number(sha, st, c.refs[k], w), c, k + 1, w)
  }

  // ---------------------------------------------------------------- the explicit stack

  /** Every iterator of the stack runs over all children of its cell. */
  predicate AllWhole(stack: seq<RefsIter>) {
    forall i :: 0 <= i < |stack| ==> stack[i].Ok() && stack[i].max == |stack[i].cell.refs|
  }

  /** What is left to do for a stack of half-processed cells. */
  function Finish(sha: Sha, st: Numbering, stack: seq<RefsIter>, w: bool): Numbering
    requires AllOk(stack)
    decreases |stack|
  {
    if stack == [] then st
    else
      var top := stack[|stack| - 1];
      Finish(sha, Push(sha, NumberRefs(sha, st, top.cell, top.next, w), top.cell, w), stack[..|stack| - 1], w)
  }

  /** Advancing the top of the stack: over a numbered child, or into an unnumbered one. */
  lemma {:induction false} FinishStep(sha: Sha, st: Numbering, below: seq<RefsIter>, c: Cell, k: nat, w: bool)
    requires AllOk(below) && k < |c.refs|
    ensures var stack, advanced := below + [From(c, k)], below + [From(c, k + 1)];
      var entered := advanced + [References(c.refs[k])];
      && (ReprHash(sha, c.refs[k]) in st.indices ==>
           Finish(sha, st, advanced, w) == Finish(sha, st, stack, w))
      && (ReprHash(sha, c.refs[k]) !in st.indices ==>
           Finish(sha, st, entered, w) == Finish(sha, st, stack, w))
  {
    hide ReprHash, Push, Finish;
    var advanced := below + [From(c, k + 1)];
    FinishTop(sha, st, below, From(c, k), w);
    FinishTop(sha, st, below, From(c, k + 1), w);
    FinishTop(sha, st, advanced, References(c.refs[k]), w);
    FinishTop(sha, Number(sha, st, c.refs[k], w), below, From(c, k + 1), w);
  }

  lemma {:induction false} FinishTop(sha: Sha, st: Numbering, below: seq<RefsIter>, top: RefsIter, w: bool)
    requires AllOk(below) && top.Ok()
    ensures Finish(sha, st, below + [top], w) ==
      Finish(sha, Push(sha, NumberRefs(sha, st, top.cell, top.next, w), top.cell, w), below, w)
  {
    hide ReprHash, Push;
    assert (below + [top])[..|below|] == below;
  }

  lemma {:induction false} FinishPop(sha: Sha, st: Numbering, below: seq<RefsIter>, c: Cell, w: bool)
    requires AllOk(below)
    ensures var stack := below + [From(c, |c.refs|)];
      Finish(sha, Push(sha, st, c, w), below, w) == Finish(sha, st, stack, w)
  {
    hide ReprHash, Push, Finish;
    FinishTop(sha, st, below, From(c, |c.refs|), w);
  }

  // ---------------------------------------------------------------- the header being filled

  const SAFE_DEPTH: nat := 128

  class BocHeader {
    var rootRevIndices: seq<nat>
    var revIndices: map<Digest, nat>
    var revCells: seq<Cell>
    var totalDataSize: nat
    var referenceCount: nat
    var cellCount: nat
    const withoutHashes: bool
    const includeCrc: bool

    ghost predicate Valid()
      reads this
    {
      cellCount == |revCells| && Bounded(State())
    }

    ghost function State(): Numbering
      reads this
    {
      Numbering(revIndices, revCells, totalDataSize, referenceCount)
    }

    constructor (withoutHashes: bool, includeCrc: bool)
      ensures Valid() && State() == EMPTY && rootRevIndices == []
      ensures this.withoutHashes == withoutHashes && this.includeCrc == includeCrc
    {
      this.withoutHashes, this.includeCrc := withoutHashes, includeCrc;
      rootRevIndices, revIndices, revCells := [], map[], [];
      totalDataSize, referenceCount, cellCount := 0, 0, 0;
    }

    /** Adds a root: it gets the number it has already, or the highest one. */
    method AddRoot(sha: Sha, root: Cell)
      requires Valid()
      modifies this
      ensures Valid() && State() == AfterRoot(sha, old(State()), root, withoutHashes)
      ensures rootRevIndices == old(rootRevIndices) + [RootNumber(sha, old(State()), root, withoutHashes)]
    {
      hide ReprHash, ReprDepth;
      var index := Fill(sha, root);
      rootRevIndices := rootRevIndices + [index];
    }

    method Fill(sha: Sha, root: Cell) returns (index: nat)
      requires Valid()
      modifies this`revIndices, this`revCells, this`totalDataSize, this`referenceCount, this`cellCount
      ensures Valid() && State() == AfterRoot(sha, old(State()), root, withoutHashes)
      ensures index == RootNumber(sha, old(State()), root, withoutHashes)
    {
      hide ReprHash, ReprDepth;
      if ReprHash(sha, root) in revIndices { return revIndices[ReprHash(sha, root)]; }
      if ReprDepth(root) <= SAFE_DEPTH {
        FillRecursive(sha, root);
      } else {
        FillDeep(sha, root);
      }
      return cellCount - 1;
    }

    method PushCell(sha: Sha, cell: Cell)
      requires Valid()
      modifies this`revIndices, this`revCells, this`totalDataSize, this`referenceCount, this`cellCount
      ensures Valid() && State() == Push(sha, old(State()), cell, withoutHashes)
    {
      revIndices := revIndices[ReprHash(sha, cell) := cellCount];
      revCells := revCells + [cell];
      totalDataSize := totalDataSize + ByteLenFull(cell, withoutHashes);
      referenceCount := referenceCount + |cell.refs| % 8;
      cellCount := cellCount + 1;
    }

    method FillRecursive(sha: Sha, cell: Cell)
      requires Valid()
      modifies this`revIndices, this`revCells, this`totalDataSize, this`referenceCount, this`cellCount
      ensures Valid() && State() == Number(sha, old(State()), cell, withoutHashes)
      decreases cell
    {
      hide ReprHash, Push;
      for i := 0 to |cell.refs|
        invariant Valid()
        invariant NumberRefs(sha, State(), cell, i, withoutHashes) == NumberRefs(sha, old(State()), cell, 0, withoutHashes)
      {
        if ReprHash(sha, cell.refs[i]) !in revIndices {
          FillRecursive(sha, cell.refs[i]);
        }
      }
      PushCell(sha, cell);
    }

    /** The same with an explicit stack instead of recursion, from any state. */
    method FillDeep(sha: Sha, root: Cell)
      requires Valid()
      modifies this`revIndices, this`revCells, this`totalDataSize, this`referenceCount, this`cellCount
      ensures Valid() && State() == Number(sha, old(State()), root, withoutHashes)
    {
      hide ReprHash, Push, Finish, StackWeight;
      var stack := [References(root)];
      FinishOne(sha, State(), root, withoutHashes);
      while stack != []
        invariant Valid() && AllWhole(stack)
        invariant Finish(sha, State(), stack, withoutHashes) == Number(sha, old(State()), root, withoutHashes)
        decreases StackWeight(stack)
      {
        var top, below := stack[|stack| - 1], stack[..|stack| - 1];
        assert stack == below + [top];
        if top.next < top.max {
          var cell := top.cell.refs[top.next];
          FinishStep(sha, State(), below, top.cell, top.next, withoutHashes);
          StackWeightStep(below, top);
          stack := below + [top.(next := top.next + 1)];
          if ReprHash(sha, cell) !in revIndices {
            stack := stack + [References(cell)];
          }
        } else {
          FinishPop(sha, State(), below, top.cell, withoutHashes);
          StackWeightPop(below, top);
          PushCell(sha, top.cell);
          stack := below;
        }
      }
      FinishNone(sha, State(), withoutHashes);
    }
  }

  lemma {:induction false} FinishOne(sha: Sha, st: Numbering, root: Cell, w: bool)
    ensures Finish(sha, st, [References(root)], w) == Number(sha, st, root, w)
  {
    hide ReprHash, Push;
    var stack := [References(root)];
    assert stack[..0] == [];
    assert Finish(sha, Number(sha, st, root, w), [], w) == Number(sha, st, root, w);
  }

  lemma {:induction false} FinishNone(sha: Sha, st: Numbering, w: bool)
    ensures Finish(sha, st, [], w) == st
  {
  }

  /** The state after adding a root, and the number the root has then. */
  function AfterRoot(sha: Sha, st: Numbering, root: Cell, w: bool): Numbering {
    if ReprHash(sha, root) in st.indices then st else Number(sha, st, root, w)
  }

  function RootNumber(sha: Sha, st: Numbering, root: Cell, w: bool): nat {
    if ReprHash(sha, root) in st.indices then st.indices[ReprHash(sha, root)]
    else |AfterRoot(sha, st, root, w).cells| - 1
  }

  /** A header filled with all these roots in turn. */
  function Filled(sha: Sha, roots: seq<Cell>, w: bool): Numbering {
    if roots == [] then EMPTY
    else AfterRoot(sha, Filled(sha, roots[..|roots| - 1], w), roots[|roots| - 1], w)
  }

  function RootNumbers(sha: Sha, roots: seq<Cell>, w: bool): (s: seq<nat>)
    ensures |s| == |roots|
  {
    if roots == [] then []
    else
      var before := roots[..|roots| - 1];
      RootNumbers(sha, before, w) + [RootNumber(sha, Filled(sha, before, w), roots[|roots| - 1], w)]
  }

  /** A header as the constructors and `AddRoot` make it. */
  method FillRoots(sha: Sha, roots: seq<Cell>, withoutHashes: bool, includeCrc: bool) returns (h: BocHeader)
    ensures fresh(h) && h.Valid() && h.withoutHashes == withoutHashes && h.includeCrc == includeCrc
    ensures h.State() == Filled(sha, roots, withoutHashes)
    ensures h.rootRevIndices == RootNumbers(sha, roots, withoutHashes)
  {
    hide AfterRoot, RootNumber;
    h := new BocHeader(withoutHashes, includeCrc);
    for i := 0 to |roots|
      invariant fresh(h) && h.Valid() && h.withoutHashes == withoutHashes && h.includeCrc == includeCrc
      invariant h.State() == Filled(sha, roots[..i], withoutHashes)
      invariant h.rootRevIndices == RootNumbers(sha, roots[..i], withoutHashes)
    {
      h.AddRoot(sha, roots[i]);
      assert roots[..i + 1][..i] == roots[..i];
    }
    assert roots[..|roots|] == roots;
  }
}
