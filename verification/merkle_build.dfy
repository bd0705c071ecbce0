/** Building Merkle proofs: an explicit stack over the original tree, with finished cells shared by hash. */
module MerkleBuild {
  import opened Cells
  import opened CellHash
  import opened CellGraph
  import opened Pruning
  import opened PruningInvariance

  const PRUNED_BITS_THRESHOLD: nat := 288

  datatype FilterAction = Skip | Include | IncludeSubtree

  type Filter = Digest -> FilterAction

  datatype ProofError = EmptyProof | CellError(error: Error)

  type Cache = map<Digest, Cell>

  // ---------------------------------------------------------------- what the builder computes

  /** A builder's cell with the data of `c` and new children. */
  function RebuildCell(sha: Sha, c: Cell, children: seq<Cell>): Result<Cell, ProofError> {
    var p := Cell(c.exotic, false, BuiltMask(c.exotic, c.bits, children), c.bits, children);
    if Finalizable(sha, p) then Ok(p) else Err(CellError(if WellFormed(sha, p) then DepthOverflow else InvalidCell))
  }

  /** Cells worth replacing: those with children, and large ones when these are to be pruned as well. */
  predicate Heavy(big: bool, c: Cell) { |c.refs| > 0 || (big && |c.bits| > PRUNED_BITS_THRESHOLD) }

  predicate Replaced(sha: Sha, f: Filter, big: bool, c: Cell) { f(ReprHash(sha, c)).Skip? && Heavy(big, c) }

  datatype Step = Have(cell: Cell) | Fail(error: ProofError) | Enter

  /** What to do with a child below `d` Merkle cells. */
  function ChildStep(sha: Sha, f: Filter, big: bool, done: Cache, child: Cell, d: nat): Step {
    if ReprHash(sha, child) in done then Have(done[ReprHash(sha, child)])
    else if f(ReprHash(sha, child)).IncludeSubtree? then Have(child)
    else if Replaced(sha, f, big, child) then
      if Prunable(child, d) then Have(PrunedCell(sha, child, d)) else Fail(CellError(InvalidCell))
    else Enter
  }

  /** The rebuilt cell and everything finished on the way. */
  function BuildNode(sha: Sha, f: Filter, big: bool, done: Cache, c: Cell, d: nat): Result<(Cell, Cache), ProofError>
    decreases c, |c.refs| + 1
  {
    match BuildRefs(sha, f, big, done, c, d + LevelOffset(c), 0, [])
    case Err(e) => Err(e)
    case Ok((children, done')) =>
      match RebuildCell(sha, c, children)
      case Err(e) => Err(e)
      case Ok(p) => Ok((p, done'[ReprHash(sha, c) := p]))
  }

  /** The children from the `k`-th on, behind those built so far. */
  function BuildRefs(sha: Sha, f: Filter, big: bool, done: Cache, c: Cell, d: nat, k: nat, built: seq<Cell>)
    : Result<(seq<Cell>, Cache), ProofError>
    requires k <= |c.refs|
    decreases c, |c.refs| - k
  {
    if k == |c.refs| then Ok((built, done))
    else
      match ChildStep(sha, f, big, done, c.refs[k], d)
      case Fail(e) => Err(e)
      case Have(p) => BuildRefs(sha, f, big, done, c, d, k + 1, built + [p])
      case Enter =>
        match BuildNode(sha, f, big, done, c.refs[k], d)
        case Err(e) => Err(e)
        case Ok((p, done')) => BuildRefs(sha, f, big, done', c, d, k + 1, built + [p])
  }

  function BuildProofCell(sha: Sha, f: Filter, big: bool, allowDifferentRoot: bool, root: Cell): Result<Cell, ProofError> {
    if !allowDifferentRoot && f(ReprHash(sha, root)).Skip? then Err(EmptyProof)
    else
      match BuildNode(sha, f, big, map[], root, 0)
      case Err(e) => Err(e)
      case Ok((p, _)) => Ok(p)
  }

  // ---------------------------------------------------------------- the explicit stack

  datatype Node = Node(references: RefsIter, merkleDepth: nat, children: seq<Cell>)

  function Iters(stack: seq<Node>): (s: seq<RefsIter>)
    ensures |s| == |stack| && forall i :: 0 <= i < |s| ==> s[i] == stack[i].references
  {
    seq(|stack|, i requires 0 <= i < |stack| => stack[i].references)
  }

  predicate Ready(stack: seq<Node>) {
    forall i :: 0 <= i < |stack| ==> stack[i].references.next <= stack[i].references.max == |stack[i].references.cell.refs|
  }

  /** What finishing all nodes of a stack gives. */
  function Resume(sha: Sha, f: Filter, big: bool, done: Cache, stack: seq<Node>): Result<Cell, ProofError>
    requires Ready(stack) && stack != []
    decreases |stack|
  {
    var top := stack[|stack| - 1];
    match BuildRefs(sha, f, big, done, top.references.cell, top.merkleDepth, top.references.next, top.children)
    case Err(e) => Err(e)
    case Ok((children, done')) => Close(sha, f, big, done', stack, children)
  }

  /** Finishing the top of the stack, whose children are all built. */
  function Close(sha: Sha, f: Filter, big: bool, done: Cache, stack: seq<Node>, children: seq<Cell>): Result<Cell, ProofError>
    requires Ready(stack) && stack != []
    decreases |stack|, 0
  {
    var top := stack[|stack| - 1];
    match RebuildCell(sha, top.references.cell, children)
    case Err(e) => Err(e)
    case Ok(p) =>
      if |stack| == 1 then Ok(p)
      else
        Resume(sha, f, big, done[ReprHash(sha, top.references.cell) := p], WithChild(stack[..|stack| - 1], p))
  }

  /** The stack with one more child stored in its top node. */
  function WithChild(stack: seq<Node>, p: Cell): (s: seq<Node>)
    requires stack != []
    ensures |s| == |stack| && s != [] && (Ready(stack) ==> Ready(s))
  {
    var top := stack[|stack| - 1];
    stack[..|stack| - 1] + [top.(children := top.children + [p])]
  }

  /** The stack after taking the next child of its top node. */
  function Taken(stack: seq<Node>): (s: seq<Node>)
    requires Ready(stack) && stack != [] && stack[|stack| - 1].references.next < stack[|stack| - 1].references.max
    ensures Ready(s) && |s| == |stack|
  {
    var top := stack[|stack| - 1];
    stack[..|stack| - 1] + [top.(references := top.references.(next := top.references.next + 1))]
  }

  function Entered(child: Cell, d: nat): Node { Node(References(child), d + LevelOffset(child), []) }

  lemma {:induction false} ResumeTake(sha: Sha, f: Filter, big: bool, done: Cache, stack: seq<Node>)
    requires Ready(stack) && stack != [] && stack[|stack| - 1].references.next < stack[|stack| - 1].references.max
    ensures var top := stack[|stack| - 1]; var child := top.references.cell.refs[top.references.next];
      var step := ChildStep(sha, f, big, done, child, top.merkleDepth);
      && (step.Fail? ==> Resume(sha, f, big, done, stack) == Err(step.error))
      && (step.Have? ==> Resume(sha, f, big, done, stack) == Resume(sha, f, big, done, WithChild(Taken(stack), step.cell)))
      && (step.Enter? ==>
           Resume(sha, f, big, done, stack) == Resume(sha, f, big, done, Taken(stack) + [Entered(child, top.merkleDepth)]))
  {
    hide ReprHash, RebuildCell, ChildStep, Prunable, PrunedCell;
    var top := stack[|stack| - 1];
    var child := top.references.cell.refs[top.references.next];
    var step := ChildStep(sha, f, big, done, child, top.merkleDepth);
    var taken := Taken(stack);
    if step.Have? {
      assert WithChild(taken, step.cell)[..|stack| - 1] == stack[..|stack| - 1];
      SameBelow(sha, f, big, stack, WithChild(taken, step.cell));
    } else if step.Enter? {
      EnterChild(sha, f, big, done, stack, child);
    }
  }

  /** Only the nodes below the top, and the top's cell, matter once its children are built. */
  lemma {:induction false} SameBelow(sha: Sha, f: Filter, big: bool, a: seq<Node>, b: seq<Node>)
    requires Ready(a) && Ready(b) && |a| == |b| && a != [] && a[..|a| - 1] == b[..|b| - 1]
    requires a[|a| - 1].references.cell == b[|b| - 1].references.cell
    ensures forall done: Cache, children: seq<Cell> ::
      Close(sha, f, big, done, a, children) == Close(sha, f, big, done, b, children)
  {
    hide ReprHash, RebuildCell, BuildRefs, Resume;
  }

  lemma {:induction false} EnterChild(sha: Sha, f: Filter, big: bool, done: Cache, stack: seq<Node>, child: Cell)
    requires Ready(stack) && stack != [] && stack[|stack| - 1].references.next < stack[|stack| - 1].references.max
    requires child == stack[|stack| - 1].references.cell.refs[stack[|stack| - 1].references.next]
    requires ChildStep(sha, f, big, done, child, stack[|stack| - 1].merkleDepth).Enter?
    ensures Resume(sha, f, big, done, stack) ==
      Resume(sha, f, big, done, Taken(stack) + [Entered(child, stack[|stack| - 1].merkleDepth)])
  {
    hide ReprHash, RebuildCell, ChildStep;
    var top, taken := stack[|stack| - 1], Taken(stack);
    ResumeEntered(sha, f, big, done, taken, child, top.merkleDepth);
    var node := BuildNode(sha, f, big, done, child, top.merkleDepth);
    if node.Ok? {
      var p := node.value.0;
      assert WithChild(taken, p)[..|stack| - 1] == stack[..|stack| - 1];
      SameBelow(sha, f, big, stack, WithChild(taken, p));
    }
  }

  /** A node that was just entered is built first, then the rest resumes. */
  lemma {:induction false} ResumeEntered(sha: Sha, f: Filter, big: bool, done: Cache, below: seq<Node>, child: Cell, d: nat)
    requires Ready(below) && below != []
    ensures var node := BuildNode(sha, f, big, done, child, d);
      Resume(sha, f, big, done, below + [Entered(child, d)]) ==
        if node.Err? then Err(node.error) else Resume(sha, f, big, node.value.1, WithChild(below, node.value.0))
  {
    hide ReprHash, RebuildCell, ChildStep, BuildRefs;
    var deeper := below + [Entered(child, d)];
    assert deeper[..|deeper| - 1] == below && deeper[|deeper| - 1] == Entered(child, d);
  }

  /** Builds the proof cell with a stack of half-built nodes. */
  method Build(sha: Sha, f: Filter, big: bool, allowDifferentRoot: bool, root: Cell) returns (r: Result<Cell, ProofError>)
    requires Valid(sha, root)
    ensures r == BuildProofCell(sha, f, big, allowDifferentRoot, root)
  {
    hide ReprHash, RebuildCell, ChildStep, BuildRefs, Resume, Close, Valid, StackWeight, Prunable, PrunedCell;
    hide Iters, Entered, Taken, WithChild, BuildProofCell;
    RootAllowed(sha, f, big, allowDifferentRoot, root);
    if !allowDifferentRoot && f(ReprHash(sha, root)) == Skip { return Err(EmptyProof); }
    var done: Cache := map[];
    var stack := [Entered(root, 0)];
    ResumeRoot(sha, f, big, root);
    while stack != []
      invariant Ready(stack) && stack != []
      invariant Resume(sha, f, big, done, stack) == BuildProofCell(sha, f, big, true, root)
      decreases StackWeight(Iters(stack))
    {
      var last := stack[|stack| - 1];
      ItersTop(stack);
      if last.references.next < last.references.max {
        var child := last.references.cell.refs[last.references.next];
        ResumeTake(sha, f, big, done, stack);
        match ChildStep(sha, f, big, done, child, last.merkleDepth) {
          case Fail(e) => return Err(e);
          case Have(p) =>
            TakeShrinks(stack, p, 0);
            stack := WithChild(Taken(stack), p);
          case Enter =>
            TakeShrinks(stack, child, last.merkleDepth);
            stack := Taken(stack) + [Entered(child, last.merkleDepth)];
        }
      } else {
        ResumeClose(sha, f, big, done, stack);
        var built := RebuildCell(sha, last.references.cell, last.children);
        if built.Err? { return built; }
        done := done[ReprHash(sha, last.references.cell) := built.value];
        if |stack| == 1 { return built; }
        CloseShrinks(stack, built.value);
        stack := WithChild(stack[..|stack| - 1], built.value);
      }
    }
    assert false;
  }

  lemma {:induction false} RootAllowed(sha: Sha, f: Filter, big: bool, allowDifferentRoot: bool, root: Cell)
    ensures BuildProofCell(sha, f, big, allowDifferentRoot, root) ==
      if !allowDifferentRoot && f(ReprHash(sha, root)) == Skip then Err(EmptyProof)
      else BuildProofCell(sha, f, big, true, root)
  {
    hide ReprHash, BuildNode;
  }

  lemma {:induction false} ResumeRoot(sha: Sha, f: Filter, big: bool, root: Cell)
    ensures Ready([Entered(root, 0)])
    ensures Resume(sha, f, big, map[], [Entered(root, 0)]) == BuildProofCell(sha, f, big, true, root)
  {
    hide ReprHash, RebuildCell, ChildStep;
    assert [Entered(root, 0)][..0] == [];
  }

  lemma {:induction false} ResumeClose(sha: Sha, f: Filter, big: bool, done: Cache, stack: seq<Node>)
    requires Ready(stack) && stack != [] && stack[|stack| - 1].references.next == stack[|stack| - 1].references.max
    ensures var top := stack[|stack| - 1]; var built := RebuildCell(sha, top.references.cell, top.children);
      && (built.Err? ==> Resume(sha, f, big, done, stack) == built)
      && (built.Ok? && |stack| == 1 ==> Resume(sha, f, big, done, stack) == built)
      && (built.Ok? && |stack| > 1 ==>
           Resume(sha, f, big, done, stack) ==
           Resume(sha, f, big, done[ReprHash(sha, top.references.cell) := built.value],
                  WithChild(stack[..|stack| - 1], built.value)))
  {
    hide ReprHash, RebuildCell, ChildStep;
  }

  lemma {:induction false} ItersTop(stack: seq<Node>)
    requires Ready(stack) && stack != []
    ensures AllOk(Iters(stack)) && Iters(stack) == Iters(stack[..|stack| - 1]) + [stack[|stack| - 1].references]
  {
  }

  /** Taking a child, and even entering it, brings the end closer. */
  lemma {:induction false} TakeShrinks(stack: seq<Node>, p: Cell, d: nat)
    requires Ready(stack) && stack != [] && stack[|stack| - 1].references.next < stack[|stack| - 1].references.max
    ensures var top := stack[|stack| - 1]; var child := top.references.cell.refs[top.references.next];
      && AllOk(Iters(stack)) && AllOk(Iters(WithChild(Taken(stack), p))) && AllOk(Iters(Taken(stack) + [Entered(child, d)]))
      && Ready(Taken(stack) + [Entered(child, d)])
      && StackWeight(Iters(WithChild(Taken(stack), p))) < StackWeight(Iters(stack))
      && StackWeight(Iters(Taken(stack) + [Entered(child, d)])) < StackWeight(Iters(stack))
  {
    hide StackWeight;
    var top, below := stack[|stack| - 1], Iters(stack[..|stack| - 1]);
    var next := top.references.(next := top.references.next + 1);
    var child := top.references.cell.refs[top.references.next];
    ItersTop(stack);
    StackWeightStep(below, top.references);
    assert Iters(WithChild(Taken(stack), p)) == below + [next];
    assert Iters(Taken(stack) + [Entered(child, d)]) == below + [next] + [References(child)];
  }

  /** So does finishing a node. */
  lemma {:induction false} CloseShrinks(stack: seq<Node>, p: Cell)
    requires Ready(stack) && |stack| > 1
    ensures AllOk(Iters(stack)) && AllOk(Iters(WithChild(stack[..|stack| - 1], p)))
    ensures StackWeight(Iters(WithChild(stack[..|stack| - 1], p))) < StackWeight(Iters(stack))
  {
    hide StackWeight;
    var below := stack[..|stack| - 1];
    ItersTop(stack);
    StackWeightPop(Iters(below), stack[|stack| - 1].references);
    assert Iters(WithChild(below, p)) == Iters(below);
  }
}
